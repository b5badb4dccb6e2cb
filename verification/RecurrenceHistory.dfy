/**
 What a run remembers of a schedule: the schedule that a run from the empty store holds is the one
 that its history tells, and each retry lies behind the delay that this history calls for.
 */
module RecurrenceHistory {
  import opened Common
  import opened RecurrenceWindow
  import opened RecurrenceSchedule

  /** What the events so far mean for a schedule: its grant, its run, and what happened under them. */
  datatype History = History(grant: string, expiresAt: Option<int>, nextRun: int, failures: nat, lastScheduled: Option<int>)

  /** The operation names the stored version of the schedule, which any other version refuses. */
  predicate IsCurrent(schedules: Schedules, id: string, asset: string, token: int) {
    id in schedules && schedules[id].asset == asset && schedules[id].updatedAt == token
  }

  /** The dispatcher's result for a listed schedule that nothing has changed since. */
  predicate IsResultFor(schedules: Schedules, action: Action, id: string) {
    && (action.Dispatch? || action.Fail?) && action.snapshot.id == id
    && IsCurrent(schedules, id, action.snapshot.asset, action.snapshot.updatedAt)
  }

  predicate IsResumeOf(schedules: Schedules, action: Action, id: string) {
    && action.Resume? && action.id == id && action.next < action.expiry
    && IsCurrent(schedules, id, action.asset, action.expected)
  }

  predicate IsCreationOf(schedules: Schedules, action: Action, id: string) {
    action.Create? && action.schedule.id == id && id !in schedules
  }

  /** One more event: a creation begins, a resume renews, a dispatch counts from its result, a failure adds one. */
  function Told(schedules: Schedules, action: Action, id: string, history: History): History {
    if IsCreationOf(schedules, action, id) then
      History(action.schedule.grant, action.schedule.expiresAt, action.schedule.nextRun, 0, None)
    else if IsResumeOf(schedules, action, id) then
      History(action.grant, Some(action.expiry), action.next, 0, history.lastScheduled)
    else if IsResultFor(schedules, action, id) && action.Dispatch? then
      History(history.grant, history.expiresAt, action.next, 0, Some(history.nextRun))
    else if IsResultFor(schedules, action, id) then
      history.(failures := history.failures + 1)
    else history
  }

  /** The history of a schedule after the first `n` events; before its creation it does not matter. */
  ghost function HistoryOf(systems: seq<System>, events: seq<Event>, n: nat, id: string): History
    requires n <= |events| < |systems|
  {
    if n == 0 then History("", None, 0, 0, None)
    else Told(systems[n - 1].schedules, events[n - 1].action, id, HistoryOf(systems, events, n - 1, id))
  }

  /** Failures count up to eight. */
  predicate Tells(history: History, schedule: Schedule) {
    && schedule.grant == history.grant && schedule.expiresAt == history.expiresAt
    && schedule.nextRun == history.nextRun && schedule.lastScheduled == history.lastScheduled
    && schedule.failures == if history.failures < 8 then history.failures else 8
  }

  /** A result of the dispatcher is written to the schedule that it listed. */
  lemma ResultIsTold(setting: Setting, system: System, event: Event, id: string, history: History)
    requires Safe(system) && Possible(setting, system, event)
    requires IsResultFor(system.schedules, event.action, id) && Tells(history, system.schedules[id])
    ensures id in Written(system.schedules, event)
    ensures Tells(Told(system.schedules, event.action, id, history), Written(system.schedules, event)[id])
  {
    ListedIsCurrent(system, event.action.snapshot, event.action.observed);
  }

  lemma StepIsTold(setting: Setting, system: System, event: Event, id: string, history: History)
    requires Safe(system) && Possible(setting, system, event)
    requires id in system.schedules ==> Tells(history, system.schedules[id])
    ensures
      var after := Written(system.schedules, event);
      id in after ==> Tells(Told(system.schedules, event.action, id, history), after[id])
  {
    if IsResultFor(system.schedules, event.action, id) {
      ResultIsTold(setting, system, event, id, history);
    } else {
      OthersAreTold(setting, system, event, id, history);
    }
  }

  lemma OthersAreTold(setting: Setting, system: System, event: Event, id: string, history: History)
    requires Plausible(setting, system, event) && !IsResultFor(system.schedules, event.action, id)
    requires id in system.schedules ==> Tells(history, system.schedules[id])
    ensures
      var after := Written(system.schedules, event);
      id in after ==> Tells(Told(system.schedules, event.action, id, history), after[id])
  {
  }

  /** A run from the empty store holds of each schedule what its history tells. */
  lemma {:induction false} HistoryIsStored(
    setting: Setting, systems: seq<System>, events: seq<Event>, n: nat, id: string)
    requires Run(setting, systems, events) && n <= |events| && systems[0].schedules == map[]
    ensures id in systems[n].schedules ==> Tells(HistoryOf(systems, events, n, id), systems[n].schedules[id])
    decreases n
  {
    if n > 0 {
      HistoryIsStored(setting, systems, events, n - 1, id);
      RunsStaySafe(setting, systems, events, n - 1);
      assert Next(setting, systems, events, n - 1);
      StepIsTold(setting, systems[n - 1], events[n - 1], id, HistoryOf(systems, events, n - 1, id));
    }
  }

  /******* How long a retry waits *******/

  /** The delay before each attempt, in seconds: it doubles from five minutes until it is six hours. */
  const RETRY_DELAYS := [300, 600, 1_200, 2_400, 4_800, 9_600, 19_200, 21_600]

  /** The delay of the attempt after `failures` failures in a row: from the eighth on it stays the same. */
  function DelayAfter(failures: nat): int {
    if failures < 8 then RETRY_DELAYS[failures] else 21_600
  }

  lemma DelaysAreTabled(failures: nat, digests: nat -> nat)
    requires 1 <= failures <= 8
    ensures RetrySeconds(failures, digests) == RETRY_DELAYS[failures - 1] + digests(failures) % 61
  {
    assert TwoToThe(0) == 1 && TwoToThe(1) == 2 && TwoToThe(2) == 4;
    assert TwoToThe(3) == 8 && TwoToThe(4) == 16 && TwoToThe(5) == 32;
    assert TwoToThe(6) == 64 && TwoToThe(7) == 128;
  }

  /**
   In every run the retry of a schedule that has failed so often since it was last created, resumed
   or dispatched is the first window time behind the delay of the table and the spread of the attempt.
   */
  lemma RetriesFollowTheHistory(setting: Setting, systems: seq<System>, events: seq<Event>, n: nat, id: string)
    requires Run(setting, systems, events) && n < |events| && systems[0].schedules == map[]
    requires events[n].action.Fail? && IsResultFor(systems[n].schedules, events[n].action, id)
    ensures
      var failed := HistoryOf(systems, events, n, id).failures;
      var attempt := if failed < 7 then failed + 1 else 8;
      var schedule, event := systems[n].schedules[id], events[n].action;
      && schedule == event.snapshot
      && systems[n + 1].schedules.Keys == systems[n].schedules.Keys
      && systems[n + 1].schedules[id].failures == attempt
      && IsWindowTime(setting.zones(schedule.zone), schedule.window, schedule.digest,
                      event.observed + (DelayAfter(failed) + setting.spread(id)(attempt) % 61) * SECOND, event.retry)
  {
    RunsStaySafe(setting, systems, events, n);
    HistoryIsStored(setting, systems, events, n, id);
    assert Next(setting, systems, events, n);
    ListedIsCurrent(systems[n], events[n].action.snapshot, events[n].action.observed);
    DelaysAreTabled(NextFailureCount(systems[n].schedules[id].failures), setting.spread(id));
  }
}
