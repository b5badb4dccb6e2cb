/**
 A rebuildable index over a directory of JSON records.

 Every change of the directory gives it a fresh fingerprint (`generation`), and every new version
 of the database file a fresh file state (`version`). The index stores the fingerprint that its
 rows were taken from (`token`) in the same transaction as the rows. A process remembers, in
 memory only, the file state and the fingerprint it saw last.
 */
module IndexSync {
  import opened Common

  datatype Status = Active | Paused | Suspended

  /** `rest` stands for the fields of a record that no query looks at. */
  datatype Record = Record(
    id: string, organization: string, asset: string, status: Status,
    nextRun: int, nextRetry: Option<int>, rest: string)

  /** `digest` is the record's SHA-256, taken as injective. */
  datatype Row = Row(
    organization: string, asset: string, status: Status, nextRun: int, nextRetry: Option<int>, digest: Record)

  datatype Database = Database(rows: map<string, Row>, token: nat)

  datatype Disk = Disk(files: map<string, Record>, generation: nat, database: Option<Database>, version: nat)

  datatype Memory = Memory(fileState: Option<nat>, sourceState: nat)

  const FORGOTTEN := Memory(None, 0)

  function RowOf(record: Record): Row {
    Row(record.organization, record.asset, record.status, record.nextRun, record.nextRetry, record)
  }

  function Projection(files: map<string, Record>): map<string, Row> {
    map id | id in files :: RowOf(files[id])
  }

  predicate Agrees(disk: Disk) {
    disk.database.Some? && disk.database.value.rows == Projection(disk.files)
  }

  /** The stored token is the directory's present fingerprint. */
  predicate TokenIsCurrent(disk: Disk) {
    disk.database.Some? && disk.database.value.token == disk.generation
  }

  /******* Changes of the store and what the index makes of them *******/

  datatype Change =
    | Put(record: Record)
    | Drop(organization: string, id: string)
    | DropAsset(organization: string, asset: string)

  function Dropped(files: map<string, Record>, change: Change): set<string>
    requires !change.Put?
  {
    match change
    case Drop(organization, id) => set f | f in files && f == id && files[f].organization == organization
    case DropAsset(organization, asset) =>
      set f | f in files && files[f].organization == organization && files[f].asset == asset
  }

  /** The JSON store is written first; it is the authority. */
  function ChangeFiles(disk: Disk, change: Change): Disk {
    if change.Put? then disk.(files := disk.files[change.record.id := change.record], generation := disk.generation + 1)
    else
      var gone := Dropped(disk.files, change);
      if gone == {} then disk else disk.(files := disk.files - gone, generation := disk.generation + 1)
  }

  function ChangeRows(rows: map<string, Row>, change: Change): map<string, Row> {
    match change
    case Put(record) => rows[record.id := RowOf(record)]
    case Drop(organization, id) =>
      map r | r in rows && !(r == id && rows[r].organization == organization) :: rows[r]
    case DropAsset(organization, asset) =>
      map r | r in rows && !(rows[r].organization == organization && rows[r].asset == asset) :: rows[r]
  }

  /** One process and the disk. */
  datatype Pair = Pair(disk: Disk, memory: Memory)

  function Rebuilt(disk: Disk): Pair {
    Pair(disk.(database := Some(Database(Projection(disk.files), disk.generation)), version := disk.version + 1),
         Memory(Some(disk.version + 1), disk.generation))
  }

  /** `sound` says whether the database file passes its integrity check. */
  function EnsureCurrent(disk: Disk, memory: Memory, sound: bool): Pair {
    if memory.fileState.None? && disk.database.Some? then
      if sound && TokenIsCurrent(disk) then Pair(disk, Memory(Some(disk.version), disk.generation)) else Rebuilt(disk)
    else if memory.fileState.None? || disk.database.None? then Rebuilt(disk)
    else if memory.fileState.value != disk.version || memory.sourceState != disk.generation then Rebuilt(disk)
    else Pair(disk, memory)
  }

  /** The changed row and the present fingerprint are stored in one transaction, without a look at the old token. */
  function Sync(disk: Disk, memory: Memory, change: Change): Pair {
    if memory.fileState.None? then Pair(disk, memory)
    else if disk.database.None? then Rebuilt(disk)
    else
      Pair(disk.(database := Some(Database(ChangeRows(disk.database.value.rows, change), disk.generation)),
                 version := disk.version + 1),
           Memory(Some(disk.version + 1), disk.generation))
  }

  /******* One step *******/

  /** A token that is current vouches for the rows. */
  predicate Honest(disk: Disk) {
    && (disk.database.Some? ==> disk.database.value.token <= disk.generation)
    && (TokenIsCurrent(disk) ==> Agrees(disk))
  }

  /** What a process remembers was true when it was stored. */
  predicate Linked(disk: Disk, memory: Memory) {
    && (memory.fileState.Some? ==> memory.fileState.value <= disk.version && memory.sourceState <= disk.generation)
    && (memory.fileState.Some? && memory.fileState.value == disk.version && disk.database.Some? ==>
          disk.database.value.token == memory.sourceState)
  }

  /** After the check that precedes every query the table is the projection of the store. */
  lemma QueriesSeeTheStore(disk: Disk, memory: Memory, sound: bool)
    requires Honest(disk) && Linked(disk, memory)
    ensures
      var after := EnsureCurrent(disk, memory, sound);
      && Agrees(after.disk) && after.disk.files == disk.files
      && Honest(after.disk) && Linked(after.disk, after.memory) && TokenIsCurrent(after.disk)
      && after.memory.fileState.Some?
  {
  }

  predicate IsDropped(record: Record, id: string, change: Change)
    requires !change.Put?
  {
    match change
    case Drop(organization, dropped) => id == dropped && record.organization == organization
    case DropAsset(organization, asset) => record.organization == organization && record.asset == asset
  }

  /** What a change makes of the directory; a deletion that finds nothing leaves its fingerprint too. */
  lemma ChangeInFields(disk: Disk, change: Change)
    ensures
      var after := ChangeFiles(disk, change);
      && after.database == disk.database && after.version == disk.version
      && (change.Put? ==> after.files == disk.files[change.record.id := change.record] && disk.generation < after.generation)
      && (!change.Put? ==>
            && (forall id | id in after.files :: id in disk.files && after.files[id] == disk.files[id])
            && (forall id | id in disk.files :: id in after.files <==> !IsDropped(disk.files[id], id, change))
            && (if exists id :: id in disk.files && IsDropped(disk.files[id], id, change)
                then disk.generation < after.generation else after.generation == disk.generation))
  {
    if !change.Put? {
      assert forall id :: id in Dropped(disk.files, change) <==> id in disk.files && IsDropped(disk.files[id], id, change);
    }
  }

  /** A query right after a stored change finds nothing to do. */
  lemma StoredIsRemembered(disk: Disk, memory: Memory, change: Change, sound: bool)
    requires memory.fileState.Some?
    ensures
      var after := Sync(ChangeFiles(disk, change), memory, change);
      EnsureCurrent(after.disk, after.memory, sound) == after
  {
  }

  lemma ChangesCommute(files: map<string, Record>, change: Change, disk: Disk)
    requires disk.files == files
    ensures Projection(ChangeFiles(disk, change).files) == ChangeRows(Projection(files), change)
  {
    var left, right := Projection(ChangeFiles(disk, change).files), ChangeRows(Projection(files), change);
    forall id
      ensures id in left <==> id in right
      ensures id in left ==> left[id] == right[id]
    {
      match change
      case Put(_) =>
      case Drop(organization, gone) =>
        assert id in Dropped(files, change) <==> id in files && id == gone && files[id].organization == organization;
      case DropAsset(organization, asset) =>
        assert id in Dropped(files, change) <==>
          id in files && files[id].organization == organization && files[id].asset == asset;
    }
    assert left.Keys == right.Keys;
  }

  predicate SameRow(disk: Disk, id: string)
    requires disk.database.Some?
  {
    && (id in disk.database.value.rows <==> id in disk.files)
    && (id in disk.files ==> disk.database.value.rows[id] == RowOf(disk.files[id]))
  }

  /** The change removes this row. */
  predicate Takes(rows: map<string, Row>, change: Change, id: string) {
    id in rows &&
    match change
    case Put(record) => id == record.id
    case Drop(organization, dropped) => id == dropped && rows[id].organization == organization
    case DropAsset(organization, asset) => rows[id].organization == organization && rows[id].asset == asset
  }

  /** The change itself makes row and file agree: it writes both, or removes whichever there is. */
  predicate Settles(disk: Disk, change: Change, id: string)
    requires disk.database.Some?
  {
    var rows := disk.database.value.rows;
    if change.Put? then id == change.record.id
    else (id in rows ==> Takes(rows, change, id)) && (id in disk.files ==> Takes(Projection(disk.files), change, id))
  }

  lemma ChangeSettlesExactly(disk: Disk, change: Change)
    requires disk.database.Some?
    ensures
      ChangeRows(disk.database.value.rows, change) == ChangeRows(Projection(disk.files), change)
      <==> forall id :: SameRow(disk, id) || Settles(disk, change, id)
  {
    var left, right := ChangeRows(disk.database.value.rows, change), ChangeRows(Projection(disk.files), change);
    if forall id :: SameRow(disk, id) || Settles(disk, change, id) {
      forall id
        ensures id in left <==> id in right
        ensures id in left ==> left[id] == right[id]
      {
        assert SameRow(disk, id) || Settles(disk, change, id);
      }
      assert left.Keys == right.Keys;
    }
    if left == right {
      forall id
        ensures SameRow(disk, id) || Settles(disk, change, id)
      {
        assert id in left <==> id in right;
      }
    }
  }

  /**
   The exact condition under which storing a change by a process that has used the index leaves a
   table that agrees with the store: before it the table agreed on every record that the change
   does not settle itself. The stored token is current afterwards in either case.
   */
  lemma SyncVouchesForTheRest(disk: Disk, memory: Memory, change: Change)
    requires memory.fileState.Some? && disk.database.Some?
    ensures
      var after := Sync(ChangeFiles(disk, change), memory, change).disk;
      && TokenIsCurrent(after)
      && (Honest(after) <==> Agrees(after))
      && (Agrees(after) <==> forall id :: SameRow(disk, id) || Settles(disk, change, id))
  {
    ChangesCommute(disk.files, change, disk);
    ChangeSettlesExactly(disk, change);
  }

  /** A change stored onto a current table keeps it current and right. */
  lemma SyncKeepsAgreement(disk: Disk, memory: Memory, change: Change)
    requires Agrees(disk) && memory.fileState.Some?
    ensures
      var after := Sync(ChangeFiles(disk, change), memory, change).disk;
      Agrees(after) && TokenIsCurrent(after)
  {
    ChangesCommute(disk.files, change, disk);
  }

  /******* Whole runs of several processes over one disk *******/

  /** How far storing a change got: into the index, past a failed transaction into a rebuild, or not at all. */
  datatype Outcome = Stored | RebuiltInstead | Unstored | Died

  datatype Action = Query(sound: bool) | Write(change: Change, outcome: Outcome) | Restart | LoseDatabase

  datatype System = System(disk: Disk, memories: seq<Memory>)

  function Act(disk: Disk, memory: Memory, action: Action): Pair {
    match action
    case Query(sound) => EnsureCurrent(disk, memory, sound)
    case Write(change, outcome) =>
      var changed := ChangeFiles(disk, change);
      (match outcome
       case Stored => Sync(changed, memory, change)
       case RebuiltInstead => if memory.fileState.None? then Pair(changed, memory) else Rebuilt(changed)
       case Unstored => Pair(changed, memory)
       case Died => Pair(changed, FORGOTTEN))
    case Restart => Pair(disk, FORGOTTEN)
    case LoseDatabase => Pair(disk.(database := None), memory)
  }

  datatype Event = Event(process: nat, action: Action)

  function Step(system: System, event: Event): System
    requires event.process < |system.memories|
  {
    var pair := Act(system.disk, system.memories[event.process], event.action);
    System(pair.disk, system.memories[event.process := pair.memory])
  }

  predicate Run(systems: seq<System>, events: seq<Event>) {
    && |systems| == |events| + 1
    && forall i {:trigger events[i]} | 0 <= i < |events| ::
         events[i].process < |systems[i].memories| && systems[i + 1] == Step(systems[i], events[i])
  }

  /** A process that has used the index stores a change only onto a table whose token is current. */
  predicate Guarded(system: System, event: Event)
    requires event.process < |system.memories|
  {
    (&& event.action.Write? && event.action.outcome.Stored?
     && system.memories[event.process].fileState.Some? && system.disk.database.Some?) ==> TokenIsCurrent(system.disk)
  }

  predicate Sound(system: System) {
    Honest(system.disk) && forall p | 0 <= p < |system.memories| :: Linked(system.disk, system.memories[p])
  }

  lemma ActKeepsSound(disk: Disk, memory: Memory, action: Action, other: Memory)
    requires Honest(disk) && Linked(disk, memory) && Linked(disk, other)
    requires action.Write? && action.outcome.Stored? && memory.fileState.Some? && disk.database.Some? ==> TokenIsCurrent(disk)
    ensures
      var after := Act(disk, memory, action);
      Honest(after.disk) && Linked(after.disk, after.memory) && Linked(after.disk, other)
  {
    match action
    case Write(change, outcome) => WriteKeepsSound(disk, memory, change, outcome, other);
    case Query(sound) => QueriesSeeTheStore(disk, memory, sound);
    case Restart =>
    case LoseDatabase =>
  }

  lemma WriteKeepsSound(disk: Disk, memory: Memory, change: Change, outcome: Outcome, other: Memory)
    requires Honest(disk) && Linked(disk, memory) && Linked(disk, other)
    requires outcome.Stored? && memory.fileState.Some? && disk.database.Some? ==> TokenIsCurrent(disk)
    ensures
      var after := Act(disk, memory, Write(change, outcome));
      Honest(after.disk) && Linked(after.disk, after.memory) && Linked(after.disk, other)
  {
    if outcome.Stored? && memory.fileState.Some? && disk.database.Some? {
      SyncKeepsAgreement(disk, memory, change);
    }
  }

  lemma StepKeepsSound(system: System, event: Event)
    requires Sound(system) && event.process < |system.memories| && Guarded(system, event)
    ensures Sound(Step(system, event))
    ensures event.action.Query? ==> Agrees(Step(system, event).disk)
  {
    var memory := system.memories[event.process];
    forall p | 0 <= p < |system.memories|
      ensures Linked(Step(system, event).disk, Step(system, event).memories[p])
      ensures Honest(Step(system, event).disk)
    {
      ActKeepsSound(system.disk, memory, event.action, system.memories[p]);
    }
    assert Linked(Step(system, event).disk, Step(system, event).memories[event.process]);
    if event.action.Query? { QueriesSeeTheStore(system.disk, memory, event.action.sound); }
  }

  /** Over every guarded run of any number of processes, each query sees the projection of the store. */
  lemma {:induction false} EveryQuerySeesTheStore(systems: seq<System>, events: seq<Event>, n: nat)
    requires Run(systems, events) && Sound(systems[0]) && n <= |events|
    requires forall i {:trigger events[i]} | 0 <= i < n :: Guarded(systems[i], events[i])
    ensures Sound(systems[n])
    ensures n > 0 && events[n - 1].action.Query? ==> Agrees(systems[n].disk)
    decreases n
  {
    if n > 0 {
      EveryQuerySeesTheStore(systems, events, n - 1);
      assert systems[n] == Step(systems[n - 1], events[n - 1]);
      StepKeepsSound(systems[n - 1], events[n - 1]);
    }
  }

  /** The only process remembers the index only while its token is current. */
  predicate SoleAndCurrent(system: System) {
    && |system.memories| == 1
    && (system.memories[0].fileState.Some? && system.disk.database.Some? ==> TokenIsCurrent(system.disk))
  }

  lemma SoleStepIsGuarded(system: System, event: Event)
    requires SoleAndCurrent(system) && Sound(system) && event.process == 0
    requires event.action.Write? ==> !event.action.outcome.Unstored?
    ensures Guarded(system, event) && SoleAndCurrent(Step(system, event))
  {
    if event.action.Query? { QueriesSeeTheStore(system.disk, system.memories[0], event.action.sound); }
  }

  /**
   A single process, killed and restarted anywhere, also between the change of the store and its
   index transaction: every query sees the projection of the store. The one thing that it must not
   survive is a change that neither the transaction nor the rebuild after it could store.
   */
  lemma {:induction false} SoleProcessSeesTheStore(systems: seq<System>, events: seq<Event>, n: nat)
    requires Run(systems, events) && Sound(systems[0]) && SoleAndCurrent(systems[0]) && n <= |events|
    requires forall i {:trigger events[i]} | 0 <= i < n ::
      events[i].action.Write? ==> !events[i].action.outcome.Unstored?
    ensures Sound(systems[n]) && SoleAndCurrent(systems[n])
    ensures n > 0 && events[n - 1].action.Query? ==> Agrees(systems[n].disk)
    decreases n
  {
    if n > 0 {
      SoleProcessSeesTheStore(systems, events, n - 1);
      assert systems[n] == Step(systems[n - 1], events[n - 1]);
      SoleStepIsGuarded(systems[n - 1], events[n - 1]);
      StepKeepsSound(systems[n - 1], events[n - 1]);
    }
  }

  /**
   Without the guard a query can miss a record, before and after a restart. A change of `lost` reaches the store but
   not the index, written by a process that never used the index or surviving a failed rebuild;
   then a process that has used the index stores a change of another record, and vouches for both.
   */
  lemma UnguardedStoreHidesARecord(disk: Disk, lost: Record, other: Record, sound: bool, foreign: bool)
    requires disk.database.Some? && Agrees(disk) && TokenIsCurrent(disk)
    requires lost.id != other.id && lost.id !in disk.files
    ensures
      var user := Memory(Some(disk.version), disk.generation);
      var first := System(disk, [user, FORGOTTEN]);
      var unstored := if foreign then Event(1, Write(Put(lost), Stored)) else Event(0, Write(Put(lost), Unstored));
      var second := Step(first, unstored);
      var third := Step(second, Event(0, Write(Put(other), Stored)));
      var last := Step(third, Event(0, Query(sound)));
      && Sound(first) && !Guarded(second, Event(0, Write(Put(other), Stored)))
      && lost.id in last.disk.files && last.disk.database.Some? && lost.id !in last.disk.database.value.rows
      && Step(Step(last, Event(0, Restart)), Event(0, Query(true))).disk == last.disk
  {
    var user := Memory(Some(disk.version), disk.generation);
    var first := System(disk, [user, FORGOTTEN]);
    var unstored := if foreign then Event(1, Write(Put(lost), Stored)) else Event(0, Write(Put(lost), Unstored));
    var second := Step(first, unstored);
    assert second.disk == ChangeFiles(disk, Put(lost)) && second.memories[0] == user;
    var third := Step(second, Event(0, Write(Put(other), Stored)));
    assert lost.id !in Projection(disk.files);
    assert lost.id !in third.disk.database.value.rows;
  }
}
