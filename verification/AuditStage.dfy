/**
 The audit stage of a deletion: which of its cuts can be recovered from, and what a cut inside the
 gap between the rewritten events and their new seal does to every later run.
 */
module AuditStage {
  import opened Common
  import opened AssetDeletion

  /** The world after some writes. */
  function After(world: World, op: Operation, writes: seq<Write>): World
    decreases |writes|
  {
    if writes == [] then world else After(Apply(world, op, writes[0]), op, writes[1..])
  }

  lemma {:induction false} CleansToIsAfter(world: World, op: Operation, writes: seq<Write>, after: World)
    requires CleansTo(world, op, writes, after)
    ensures after == After(world, op, writes)
    decreases |writes|
  {
    if writes != [] { CleansToIsAfter(Apply(world, op, writes[0]), op, writes[1..], after); }
  }

  lemma {:induction false} AfterJoin(world: World, op: Operation, first: seq<Write>, second: seq<Write>)
    ensures After(world, op, first + second) == After(After(world, op, first), op, second)
    decreases |first|
  {
    if first == [] {
      assert first + second == second;
    } else {
      assert (first + second)[1..] == first[1..] + second;
      AfterJoin(Apply(world, op, first[0]), op, first[1..], second);
    }
  }

  lemma AfterOne(world: World, op: Operation, write: Write)
    ensures After(world, op, [write]) == Apply(world, op, write)
  {
    assert [write][1..] == [];
  }

  lemma AfterTwo(world: World, op: Operation, first: Write, second: Write)
    ensures After(world, op, [first, second]) == Apply(Apply(world, op, first), op, second)
  {
    assert [first, second] == [first] + [second];
    AfterJoin(world, op, [first], [second]);
    AfterOne(world, op, first);
    AfterOne(Apply(world, op, first), op, second);
  }

  /******* The writes of the stage *******/

  predicate IsLinked(world: World, op: Operation, id: string) {
    id in world.audit && Linked(world.audit[id], op)
  }

  /** Every linked event, once, in the order in which the directory lists them. */
  predicate Enumerates(ids: seq<string>, world: World, op: Operation) {
    && (forall i | 0 <= i < |ids| :: IsLinked(world, op, ids[i]))
    && (forall id | id in world.audit :: IsLinked(world, op, id) ==> id in ids)
    && (forall i, j | 0 <= i < j < |ids| :: ids[i] != ids[j])
  }

  function Rewrites(ids: seq<string>): (writes: seq<Write>)
    ensures |writes| == |ids| && forall i | 0 <= i < |ids| :: writes[i] == AnonymizeEvent(ids[i])
  {
    if ids == [] then [] else [AnonymizeEvent(ids[0])] + Rewrites(ids[1..])
  }

  lemma {:induction false} RewritesNext(ids: seq<string>, id: string)
    ensures Rewrites(ids + [id]) == Rewrites(ids) + [AnonymizeEvent(id)]
  {
  }

  /** A missing chain is built first. */
  function Bootstrap(world: World, op: Operation): seq<Write> {
    if op.key.organization in world.seals then [] else [BuildSeal]
  }

  /** A new chain is swapped in, in two renames, if anything was rewritten. */
  function Rotation(ids: seq<string>): seq<Write> {
    if ids == [] then [] else [DropSeal, BuildSeal]
  }

  function AuditWrites(world: World, op: Operation, ids: seq<string>): seq<Write> {
    Bootstrap(world, op) + Rewrites(ids) + Rotation(ids)
  }

  /******* Cuts *******/

  predicate Unchanged(world: World, op: Operation, ids: seq<string>) {
    forall i | 0 <= i < |ids| :: ids[i] in world.audit && world.audit[ids[i]] == Anonymized(world.audit[ids[i]], op)
  }

  function Rewritten(audit: map<string, AuditEvent>, op: Operation, ids: seq<string>): map<string, AuditEvent> {
    map id | id in audit :: if id in ids then Anonymized(audit[id], op) else audit[id]
  }

  lemma {:induction false} AfterRewrites(world: World, op: Operation, ids: seq<string>)
    requires forall i | 0 <= i < |ids| :: ids[i] in world.audit
    ensures After(world, op, Rewrites(ids)) == world.(audit := Rewritten(world.audit, op, ids))
    decreases |ids|
  {
    if ids == [] {
      assert Rewritten(world.audit, op, ids) == world.audit;
    } else {
      var next := Apply(world, op, AnonymizeEvent(ids[0]));
      AfterRewrites(next, op, ids[1..]);
      assert Rewrites(ids)[1..] == Rewrites(ids[1..]);
      RewrittenNext(world.audit, op, ids);
    }
  }

  lemma RewrittenNext(audit: map<string, AuditEvent>, op: Operation, ids: seq<string>)
    requires ids != [] && ids[0] in audit
    ensures Rewritten(audit[ids[0] := Anonymized(audit[ids[0]], op)], op, ids[1..]) == Rewritten(audit, op, ids)
  {
    assert forall id :: id in ids <==> id == ids[0] || id in ids[1..];
  }

  lemma RewrittenOneMore(audit: map<string, AuditEvent>, op: Operation, ids: seq<string>, id: string)
    requires id in audit && id !in ids
    ensures Rewritten(audit, op, ids)[id := Anonymized(audit[id], op)] == Rewritten(audit, op, ids + [id])
  {
  }

  lemma NothingLinked(audit: map<string, AuditEvent>, op: Operation)
    requires forall id | id in audit :: !Linked(audit[id], op)
    ensures ClearedAudit(audit, op) == audit
  {
  }

  lemma NothingRewritten(world: World, op: Operation)
    ensures Rewritten(world.audit, op, []) == world.audit && CleansTo(world, op, Rewrites([]), world)
  {
  }

  lemma LogNext(log: seq<Write>, writes: seq<Write>, write: Write)
    ensures (log + writes) + [write] == log + (writes + [write])
  {
  }

  lemma RewrittenIsCleared(world: World, op: Operation, ids: seq<string>)
    requires Enumerates(ids, world, op)
    ensures Rewritten(world.audit, op, ids) == ClearedAudit(world.audit, op)
  {
    assert forall id | id in world.audit :: IsLinked(world, op, id) <==> id in ids;
  }

  lemma PrefixNext(ids: seq<string>, i: nat)
    requires i < |ids| && forall j, k | 0 <= j < k < |ids| :: ids[j] != ids[k]
    ensures ids[..i + 1] == ids[..i] + [ids[i]] && ids[i] !in ids[..i]
    ensures Rewrites(ids[..i + 1]) == Rewrites(ids[..i]) + [AnonymizeEvent(ids[i])]
  {
    RewritesNext(ids[..i], ids[i]);
  }

  /** The three parts of the stage, one after the other. */
  lemma StageJoins(start: World, built: World, rewritten: World, after: World, op: Operation, ids: seq<string>)
    requires CleansTo(start, op, Bootstrap(start, op), built) && CleansTo(built, op, Rewrites(ids), rewritten)
    requires CleansTo(rewritten, op, Rotation(ids), after)
    ensures CleansTo(start, op, AuditWrites(start, op, ids), after)
  {
    CleansToJoin(start, op, Bootstrap(start, op), built, Rewrites(ids), rewritten);
    CleansToJoin(start, op, Bootstrap(start, op) + Rewrites(ids), rewritten, Rotation(ids), after);
  }

  lemma LogJoins(log: seq<Write>, first: seq<Write>, second: seq<Write>, third: seq<Write>)
    ensures ((log + first) + second) + third == log + (first + second + third)
  {
  }

  /** A second rewrite would change nothing. */
  lemma NothingLinkedIsChanged(audit: map<string, AuditEvent>, op: Operation)
    ensures forall id | id in ClearedAudit(audit, op) && Linked(ClearedAudit(audit, op)[id], op) ::
      ClearedAudit(audit, op)[id] == Anonymized(ClearedAudit(audit, op)[id], op)
  {
  }

  /** Rewriting events breaks a seal over them, unless it changes none. */
  lemma RewritingBreaksTheSeal(world: World, op: Operation, ids: seq<string>)
    requires op.key.organization in world.seals && SealHolds(world, op.key.organization)
    requires forall i | 0 <= i < |ids| :: IsLinked(world, op, ids[i])
    ensures SealHolds(After(world, op, Rewrites(ids)), op.key.organization) <==> Unchanged(world, op, ids)
  {
    AfterRewrites(world, op, ids);
    var rewritten := Rewritten(world.audit, op, ids);
    var sealed, events := EventsOf(world.audit, op.key.organization), EventsOf(rewritten, op.key.organization);
    if Unchanged(world, op, ids) {
      assert rewritten == world.audit;
    } else {
      var i :| 0 <= i < |ids| && world.audit[ids[i]] != Anonymized(world.audit[ids[i]], op);
      assert ids[i] in sealed && ids[i] in events && sealed[ids[i]] != events[ids[i]];
    }
  }

  lemma BootstrapHoldsTheSeal(world: World, op: Operation)
    requires SealHolds(world, op.key.organization)
    ensures
      var built := After(world, op, Bootstrap(world, op));
      && op.key.organization in built.seals && SealHolds(built, op.key.organization)
      && built == world.(seals := built.seals)
  {
    if op.key.organization !in world.seals { AfterOne(world, op, BuildSeal); }
  }

  /** How many events a cut of the stage has rewritten. */
  function RewrittenBy(world: World, op: Operation, ids: seq<string>, cut: nat): (rewritten: nat)
    ensures rewritten <= |ids|
  {
    var bootstrapped := |Bootstrap(world, op)|;
    if cut <= bootstrapped then 0 else if cut - bootstrapped <= |ids| then cut - bootstrapped else |ids|
  }

  lemma RewritesAfterBootstrap(world: World, op: Operation, done: seq<string>)
    requires SealHolds(world, op.key.organization)
    requires forall i | 0 <= i < |done| :: IsLinked(world, op, done[i])
    ensures SealHolds(After(world, op, Bootstrap(world, op) + Rewrites(done)), op.key.organization)
       <==> Unchanged(world, op, done)
  {
    var built := After(world, op, Bootstrap(world, op));
    BootstrapHoldsTheSeal(world, op);
    AfterJoin(world, op, Bootstrap(world, op), Rewrites(done));
    RewritingBreaksTheSeal(built, op, done);
  }

  lemma CutBeforeTheSwap(world: World, op: Operation, ids: seq<string>, cut: nat)
    requires SealHolds(world, op.key.organization) && Enumerates(ids, world, op)
    requires cut <= |Bootstrap(world, op)| + |ids|
    ensures SealHolds(After(world, op, AuditWrites(world, op, ids)[..cut]), op.key.organization)
       <==> Unchanged(world, op, ids[..RewrittenBy(world, op, ids, cut)])
  {
    if cut < |Bootstrap(world, op)| {
      assert cut == 0 && AuditWrites(world, op, ids)[..0] == [];
      assert ids[..0] == [];
    } else {
      CutOfRewrites(world, op, ids, cut);
      RewritesAfterBootstrap(world, op, ids[..RewrittenBy(world, op, ids, cut)]);
    }
  }

  lemma CutOfRewrites(world: World, op: Operation, ids: seq<string>, cut: nat)
    requires |Bootstrap(world, op)| <= cut <= |Bootstrap(world, op)| + |ids|
    ensures AuditWrites(world, op, ids)[..cut] == Bootstrap(world, op) + Rewrites(ids[..cut - |Bootstrap(world, op)|])
  {
    PrefixOfRewrites(ids, cut - |Bootstrap(world, op)|);
  }

  lemma {:induction false} PrefixOfRewrites(ids: seq<string>, n: nat)
    requires n <= |ids|
    ensures Rewrites(ids)[..n] == Rewrites(ids[..n])
  {
  }

  lemma CutAfterTheSwap(world: World, op: Operation, ids: seq<string>, cut: nat)
    requires SealHolds(world, op.key.organization) && Enumerates(ids, world, op)
    requires |Bootstrap(world, op)| + |ids| < cut <= |AuditWrites(world, op, ids)|
    ensures SealHolds(After(world, op, AuditWrites(world, op, ids)[..cut]), op.key.organization)
  {
    var before := Bootstrap(world, op) + Rewrites(ids);
    var swap := [DropSeal, BuildSeal][..cut - |before|];
    assert AuditWrites(world, op, ids)[..cut] == before + swap;
    AfterJoin(world, op, before, swap);
    SwapHoldsTheSeal(After(world, op, before), op, swap);
  }

  lemma SwapHoldsTheSeal(world: World, op: Operation, swap: seq<Write>)
    requires swap == [DropSeal] || swap == [DropSeal, BuildSeal]
    ensures SealHolds(After(world, op, swap), op.key.organization)
  {
    if |swap| == 1 {
      AfterOne(world, op, DropSeal);
    } else {
      AfterTwo(world, op, DropSeal, BuildSeal);
    }
  }

  /** The old chain is out of the way already, or no event was changed yet. */
  predicate IsSafeCut(world: World, op: Operation, ids: seq<string>, cut: nat) {
    cut > |Bootstrap(world, op)| + |ids| || Unchanged(world, op, ids[..RewrittenBy(world, op, ids, cut)])
  }

  /** Exactly which cuts of the audit stage can be recovered from. */
  lemma CutKeepsTheSeal(world: World, op: Operation, ids: seq<string>, cut: nat)
    requires SealHolds(world, op.key.organization) && Enumerates(ids, world, op)
    requires cut <= |AuditWrites(world, op, ids)|
    ensures SealHolds(After(world, op, AuditWrites(world, op, ids)[..cut]), op.key.organization)
       <==> IsSafeCut(world, op, ids, cut)
  {
    if cut <= |Bootstrap(world, op)| + |ids| {
      CutBeforeTheSwap(world, op, ids, cut);
    } else {
      CutAfterTheSwap(world, op, ids, cut);
    }
  }

  /** Outside the audit stage no write touches events or seals. */
  lemma OtherWritesKeepTheSeal(world: World, op: Operation, write: Write)
    requires !IsAudit(write)
    ensures
      var next := Apply(world, op, write);
      next.audit == world.audit && next.seals == world.seals
  {
  }

  predicate NoneAudit(writes: seq<Write>) {
    forall i | 0 <= i < |writes| :: !IsAudit(writes[i])
  }

  /** A log that grew by writes outside the audit stage. */
  predicate GrowsBesides(before: seq<Write>, after: seq<Write>) {
    before <= after && NoneAudit(after[|before|..])
  }

  lemma GrowsByOne(before: seq<Write>, middle: seq<Write>, write: Write)
    requires GrowsBesides(before, middle) && !IsAudit(write)
    ensures GrowsBesides(before, middle + [write])
  {
    assert (middle + [write])[|before|..] == middle[|before|..] + [write];
  }

  lemma GrowsJoin(before: seq<Write>, middle: seq<Write>, after: seq<Write>)
    requires GrowsBesides(before, middle) && GrowsBesides(middle, after)
    ensures GrowsBesides(before, after)
  {
    assert after[|before|..] == middle[|before|..] + after[|middle|..];
  }

  lemma {:induction false} OtherStagesKeepTheSeal(world: World, op: Operation, writes: seq<Write>)
    requires NoneAudit(writes)
    ensures After(world, op, writes).audit == world.audit && After(world, op, writes).seals == world.seals
    decreases |writes|
  {
    if writes != [] {
      OtherWritesKeepTheSeal(world, op, writes[0]);
      OtherStagesKeepTheSeal(Apply(world, op, writes[0]), op, writes[1..]);
    }
  }

  /** A whole clean-up: what comes before the audit stage, the stage, and what comes behind it. */
  function WholeCleanup(world: World, op: Operation, early: seq<Write>, ids: seq<string>, late: seq<Write>): seq<Write> {
    early + AuditWrites(world, op, ids) + late
  }

  /** How far a cut of a whole clean-up got in its audit stage. */
  function StageCut(early: seq<Write>, cut: nat): nat {
    if cut <= |early| then 0 else cut - |early|
  }

  lemma CutInTheStage(world: World, op: Operation, early: seq<Write>, ids: seq<string>, cut: nat)
    requires NoneAudit(early) && SealHolds(world, op.key.organization) && Enumerates(ids, world, op)
    requires cut <= |AuditWrites(world, op, ids)|
    ensures SealHolds(After(world, op, early + AuditWrites(world, op, ids)[..cut]), op.key.organization)
       <==> IsSafeCut(world, op, ids, cut)
  {
    var begun := After(world, op, early);
    OtherStagesKeepTheSeal(world, op, early);
    AfterJoin(world, op, early, AuditWrites(world, op, ids)[..cut]);
    SameEventsEnumerated(ids, world, begun, op);
    assert AuditWrites(begun, op, ids) == AuditWrites(world, op, ids);
    CutKeepsTheSeal(begun, op, ids, cut);
  }

  lemma CutBehindTheStage(
    world: World, op: Operation, early: seq<Write>, ids: seq<string>, late: seq<Write>)
    requires NoneAudit(early) && NoneAudit(late)
    requires SealHolds(world, op.key.organization) && Enumerates(ids, world, op)
    ensures SealHolds(After(world, op, early + AuditWrites(world, op, ids) + late), op.key.organization)
  {
    var stage := AuditWrites(world, op, ids);
    CutInTheStage(world, op, early, ids, |stage|);
    assert stage[..|stage|] == stage;
    AfterJoin(world, op, early + stage, late);
    OtherStagesKeepTheSeal(After(world, op, early + stage), op, late);
  }

  lemma CutOfWhole(early: seq<Write>, stage: seq<Write>, late: seq<Write>, cut: nat)
    requires cut <= |early| + |stage| + |late|
    ensures (early + stage + late)[..cut] ==
      if cut <= |early| then early[..cut] + stage[..0]
      else if cut <= |early| + |stage| then early + stage[..cut - |early|]
      else early + stage + late[..cut - |early| - |stage|]
  {
  }

  /** What the log of a run holds when it is over. */
  ghost predicate LogsWhole(world: World, op: Operation, before: seq<Write>, after: seq<Write>) {
    exists early, ids, late :: LogsStages(world, op, before, after, early, ids, late)
  }

  ghost predicate LogsStages(
    world: World, op: Operation, before: seq<Write>, after: seq<Write>,
    early: seq<Write>, ids: seq<string>, late: seq<Write>)
  {
    && NoneAudit(early) && NoneAudit(late) && Enumerates(ids, world, op)
    && after == before + WholeCleanup(world, op, early, ids, late)
  }

  lemma StagesAreLogged(
    world: World, begun: World, op: Operation, ids: seq<string>,
    before: seq<Write>, early: seq<Write>, audited: seq<Write>, after: seq<Write>)
    requires begun.audit == world.audit && begun.seals == world.seals && Enumerates(ids, begun, op)
    requires GrowsBesides(before, early) && audited == early + AuditWrites(begun, op, ids) && GrowsBesides(audited, after)
    ensures LogsWhole(world, op, before, after)
  {
    var first, last := early[|before|..], after[|audited|..];
    assert AuditWrites(begun, op, ids) == AuditWrites(world, op, ids);
    assert after == before + WholeCleanup(world, op, first, ids, last) by {
      LogIsItsParts(before, early, AuditWrites(world, op, ids), audited, after);
    }
    SameEventsEnumerated(ids, begun, world, op);
    assert LogsStages(world, op, before, after, first, ids, last);
  }

  lemma LogIsItsParts(before: seq<Write>, early: seq<Write>, stage: seq<Write>, audited: seq<Write>, after: seq<Write>)
    requires before <= early && audited == early + stage && audited <= after
    ensures after == before + (early[|before|..] + stage + after[|audited|..])
  {
    assert early == before + early[|before|..];
    assert after == audited + after[|audited|..];
  }

  lemma SameEventsEnumerated(ids: seq<string>, one: World, other: World, op: Operation)
    requires Enumerates(ids, one, op) && one.audit == other.audit
    ensures Enumerates(ids, other, op)
  {
    assert forall id :: IsLinked(one, op, id) <==> IsLinked(other, op, id);
  }

  lemma LateCutIsSafe(world: World, op: Operation, ids: seq<string>, cut: nat)
    requires cut >= |AuditWrites(world, op, ids)|
    ensures IsSafeCut(world, op, ids, cut)
  {
  }

  /** Of a whole clean-up too, exactly those cuts leave a seal that holds. */
  lemma WholeCutKeepsTheSeal(
    world: World, op: Operation, early: seq<Write>, ids: seq<string>, late: seq<Write>, cut: nat)
    requires NoneAudit(early) && NoneAudit(late)
    requires SealHolds(world, op.key.organization) && Enumerates(ids, world, op)
    requires cut <= |WholeCleanup(world, op, early, ids, late)|
    ensures SealHolds(After(world, op, WholeCleanup(world, op, early, ids, late)[..cut]), op.key.organization)
       <==> IsSafeCut(world, op, ids, StageCut(early, cut))
  {
    var stage := AuditWrites(world, op, ids);
    var writes := WholeCleanup(world, op, early, ids, late);
    if cut <= |early| {
      assert writes[..cut] == early[..cut] + stage[..0] by { CutOfWhole(early, stage, late, cut); }
      CutInTheStage(world, op, early[..cut], ids, 0);
    } else if cut <= |early| + |stage| {
      assert writes[..cut] == early + stage[..cut - |early|] by { CutOfWhole(early, stage, late, cut); }
      CutInTheStage(world, op, early, ids, cut - |early|);
    } else {
      var more := late[..cut - |early| - |stage|];
      assert writes[..cut] == early + stage + more by { CutOfWhole(early, stage, late, cut); }
      LateCutIsSafe(world, op, ids, cut - |early|);
      CutBehindTheStage(world, op, early, ids, more);
    }
  }

  /** So a clean-up that could finish can still finish after a cut exactly if the cut is safe. */
  lemma CutCanFinishExactly(
    world: World, op: Operation, early: seq<Write>, ids: seq<string>, late: seq<Write>, after: World, cut: nat)
    requires NoneAudit(early) && NoneAudit(late) && Enumerates(ids, world, op) && Completable(world, op)
    requires CleansTo(world, op, WholeCleanup(world, op, early, ids, late), after)
    requires cut <= |WholeCleanup(world, op, early, ids, late)|
    ensures Completable(After(world, op, WholeCleanup(world, op, early, ids, late)[..cut]), op)
       <==> IsSafeCut(world, op, ids, StageCut(early, cut))
  {
    var writes := WholeCleanup(world, op, early, ids, late);
    var crashed := CutStillCleans(world, op, writes, after, cut);
    CleansToIsAfter(world, op, writes[..cut], crashed);
    CleanupKeepsClearable(world, op, writes[..cut], crashed, op);
    WholeCutKeepsTheSeal(world, op, early, ids, late, cut);
  }

  /******* After a cut inside the gap *******/

  /** Events and seal of an organization. */
  predicate SameChain(before: World, after: World, organization: string) {
    && EventsOf(after.audit, organization) == EventsOf(before.audit, organization)
    && (organization in after.seals <==> organization in before.seals)
    && (organization in before.seals ==> after.seals[organization] == before.seals[organization])
  }

  /** The markers of an organization's deletions stay. */
  predicate MarkersStay(before: World, after: World, organization: string) {
    forall asset | asset in before.markers && before.markers[asset].key == Key(organization, asset) ::
      asset in after.markers && after.markers[asset] == before.markers[asset]
  }

  lemma WriteOfAnother(world: World, op: Operation, write: Write, organization: string)
    requires Cleans(world, op, write) && op.key.organization != organization
    ensures SameChain(world, Apply(world, op, write), organization)
    ensures MarkersStay(world, Apply(world, op, write), organization)
  {
    var next := Apply(world, op, write);
    if write.AnonymizeEvent? {
      assert EventsOf(next.audit, organization) == EventsOf(world.audit, organization);
    }
  }

  lemma EarlyWrite(world: World, op: Operation, write: Write, organization: string)
    requires IsEarly(write)
    ensures SameChain(world, Apply(world, op, write), organization)
    ensures MarkersStay(world, Apply(world, op, write), organization)
  {
  }

  lemma {:induction false} WritesKeepChain(
    world: World, op: Operation, writes: seq<Write>, after: World, organization: string)
    requires CleansTo(world, op, writes, after)
    requires AllEarly(writes) || op.key.organization != organization
    ensures SameChain(world, after, organization) && MarkersStay(world, after, organization)
    decreases |writes|
  {
    if writes != [] {
      var next := Apply(world, op, writes[0]);
      if op.key.organization != organization {
        WriteOfAnother(world, op, writes[0], organization);
      } else {
        EarlyWrite(world, op, writes[0], organization);
      }
      WritesKeepChain(next, op, writes[1..], after, organization);
    }
  }

  /** While the integrity check fails, nothing is recorded or purged; only deletions take markers away. */
  predicate OtherWork(before: World, after: World, organization: string) {
    && (!SealHolds(before, organization) ==> SameChain(before, after, organization))
    && MarkersStay(before, after, organization)
  }

  ghost predicate AnyAttempt(before: World, after: World) {
    exists op :: AttemptReaches(before, after, op)
  }

  /** Clean-ups of any assets, cut short or not, and other work, in any order. */
  ghost predicate OrganizationRun(worlds: seq<World>, organization: string) {
    && worlds != []
    && forall i | 0 < i < |worlds| ::
         AnyAttempt(worlds[i - 1], worlds[i]) || OtherWork(worlds[i - 1], worlds[i], organization)
  }

  lemma AttemptKeepsBrokenSeal(before: World, after: World, op: Operation, organization: string)
    requires AttemptReaches(before, after, op) && !SealHolds(before, organization)
    ensures SameChain(before, after, organization) && MarkersStay(before, after, organization)
  {
    if EarlyReaches(before, after, op) {
      var writes :| CleansTo(before, op, writes, after) && AllEarly(writes);
      WritesKeepChain(before, op, writes, after, organization);
    } else {
      var writes :| CleansTo(before, op, writes, after);
      WritesKeepChain(before, op, writes, after, organization);
    }
  }

  /**
   A broken seal is for good: over every run of clean-ups and other work it stays broken, and no
   deletion of its organization ever removes its marker.
   */
  lemma {:induction false} BrokenSealStopsDeletions(worlds: seq<World>, organization: string, n: nat)
    requires OrganizationRun(worlds, organization) && !SealHolds(worlds[0], organization) && n < |worlds|
    ensures !SealHolds(worlds[n], organization) && MarkersStay(worlds[0], worlds[n], organization)
    decreases n
  {
    if n > 0 {
      BrokenSealStopsDeletions(worlds, organization, n - 1);
      BrokenSealStep(worlds[n - 1], worlds[n], organization);
    }
  }

  lemma BrokenSealStep(before: World, after: World, organization: string)
    requires AnyAttempt(before, after) || OtherWork(before, after, organization)
    requires !SealHolds(before, organization)
    ensures !SealHolds(after, organization) && MarkersStay(before, after, organization)
  {
    if AnyAttempt(before, after) {
      var op :| AttemptReaches(before, after, op);
      AttemptKeepsBrokenSeal(before, after, op, organization);
    }
  }

  /**
   The crash itself: killed after its first rewrite, the audit stage leaves a world in which the
   marker stays through every later run, however often the clean-up is tried again.
   */
  lemma CrashInTheGapIsForGood(world: World, op: Operation, ids: seq<string>, worlds: seq<World>, n: nat)
    requires SealHolds(world, op.key.organization) && Enumerates(ids, world, op)
    requires ids != [] && world.audit[ids[0]] != Anonymized(world.audit[ids[0]], op)
    requires op.key.asset in world.markers && world.markers[op.key.asset] == op
    requires OrganizationRun(worlds, op.key.organization) && n < |worlds|
    requires worlds[0] == After(world, op, AuditWrites(world, op, ids)[..|Bootstrap(world, op)| + 1])
    ensures !Completable(worlds[n], op) && op.key.asset in worlds[n].markers && worlds[n].markers[op.key.asset] == op
  {
    var cut := |Bootstrap(world, op)| + 1;
    CutKeepsTheSeal(world, op, ids, cut);
    assert ids[..1][0] == ids[0];
    AuditWritesKeepMarkers(world, op, AuditWrites(world, op, ids)[..cut]);
    BrokenSealStopsDeletions(worlds, op.key.organization, n);
  }

  lemma AuditWriteKeepsMarkers(world: World, op: Operation, write: Write)
    requires IsAudit(write)
    ensures Apply(world, op, write).markers == world.markers
  {
  }

  lemma {:induction false} AuditWritesKeepMarkers(world: World, op: Operation, writes: seq<Write>)
    requires forall i | 0 <= i < |writes| :: IsAudit(writes[i])
    ensures After(world, op, writes).markers == world.markers
    decreases |writes|
  {
    if writes != [] {
      AuditWriteKeepsMarkers(world, op, writes[0]);
      AuditWritesKeepMarkers(Apply(world, op, writes[0]), op, writes[1..]);
    }
  }

  /** A clean-up never touches the chain of another organization. */
  lemma OtherChainsStay(before: World, after: World, op: Operation, organization: string)
    requires CleanupReaches(before, after, op) && op.key.organization != organization
    ensures SealHolds(after, organization) <==> SealHolds(before, organization)
  {
    var writes :| CleansTo(before, op, writes, after);
    WritesKeepChain(before, op, writes, after, organization);
  }
}
