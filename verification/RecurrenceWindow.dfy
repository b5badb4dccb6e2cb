/**
 Weekly windows in local time, over any table of zone offsets.

 Instants are microseconds of UTC since the epoch and wall times are microseconds of local time;
 both may be negative. A zone maps instants to wall times (with the fold of an ambiguous wall
 time) and wall times, given a fold, back to an offset. Nothing is assumed about it.
 */
module RecurrenceWindow {
  import opened Common

  const MAX_JITTER_SECONDS: nat := 900
  const SEARCH_DAYS: nat := 371

  datatype Zone = Zone(offsetAt: int -> int, foldAt: int -> int, wallOffset: (int, int) -> int)

  /** Weekdays count from Monday, 0, to Sunday, 6. */
  datatype Window = Window(weekdays: set<int>, startHour: int, durationHours: int)

  datatype Bounds = Bounds(start: int, end: int)

  /** What the record validator admits. */
  predicate WellFormed(window: Window) {
    && (exists day :: day in window.weekdays) && (forall day | day in window.weekdays :: 0 <= day < 7)
    && 0 <= window.startHour && 1 <= window.durationHours && window.startHour + window.durationHours <= 24
  }

  function LocalDay(zone: Zone, instant: int): int {
    (instant + zone.offsetAt(instant)) / DAY
  }

  /** Day 0, 1 January 1970, was a Thursday. */
  function Weekday(day: int): (weekday: int)
    ensures 0 <= weekday < 7
  {
    (day + 3) % 7
  }

  function Candidate(zone: Zone, wall: int, fold: int): int {
    wall - zone.wallOffset(wall, fold)
  }

  /** An instant counts as a reading of a wall time only if the zone maps it back, with the same fold. */
  predicate IsReading(zone: Zone, wall: int, fold: int) {
    var instant := Candidate(zone, wall, fold);
    instant + zone.offsetAt(instant) == wall && zone.foldAt(instant) == fold
  }

  function Readings(zone: Zone, wall: int): set<int> {
    (if IsReading(zone, wall, 0) then {Candidate(zone, wall, 0)} else {}) +
    (if IsReading(zone, wall, 1) then {Candidate(zone, wall, 1)} else {})
  }

  function Earliest(zone: Zone, wall: int): (earliest: int)
    requires Readings(zone, wall) != {}
    ensures earliest in Readings(zone, wall) && forall r | r in Readings(zone, wall) :: earliest <= r
  {
    var first, second := Candidate(zone, wall, 0), Candidate(zone, wall, 1);
    if !IsReading(zone, wall, 1) || (IsReading(zone, wall, 0) && first <= second) then first else second
  }

  function Latest(zone: Zone, wall: int): (latest: int)
    requires Readings(zone, wall) != {}
    ensures latest in Readings(zone, wall) && forall r | r in Readings(zone, wall) :: r <= latest
  {
    var first, second := Candidate(zone, wall, 0), Candidate(zone, wall, 1);
    if !IsReading(zone, wall, 1) || (IsReading(zone, wall, 0) && second <= first) then first else second
  }

  /** The window of a local day; a boundary that the zone skips drops the whole window. */
  function WindowBounds(zone: Zone, window: Window, day: int): Option<Bounds> {
    var start := day * DAY + window.startHour * HOUR;
    var end := start + window.durationHours * HOUR;
    if Weekday(day) !in window.weekdays then None
    else if Readings(zone, start) == {} || Readings(zone, end) == {} then None
    else Some(Bounds(Earliest(zone, start), Latest(zone, end)))
  }

  predicate IsWithinWindow(zone: Zone, window: Window, instant: int) {
    var bounds := WindowBounds(zone, window, LocalDay(zone, instant));
    bounds.Some? && bounds.value.start <= instant < bounds.value.end
  }

  function JitterSeconds(digest: nat): (jitter: int)
    ensures 1 <= jitter <= MAX_JITTER_SECONDS
  {
    1 + digest % MAX_JITTER_SECONDS
  }

  /** What one day's window offers to a candidate instant. */
  function Offer(zone: Zone, window: Window, digest: nat, candidate: int, day: int): Option<int> {
    var bounds := WindowBounds(zone, window, day);
    if bounds.None? then None
    else if bounds.value.start <= candidate < bounds.value.end then Some(candidate)
    else if candidate < bounds.value.start && bounds.value.start + JitterSeconds(digest) * SECOND < bounds.value.end
    then Some(bounds.value.start + JitterSeconds(digest) * SECOND)
    else None
  }

  /** The first offer of the local days from the candidate's own one on. */
  ghost predicate IsFirstOffer(zone: Zone, window: Window, digest: nat, candidate: int, offset: nat, found: int) {
    && offset < SEARCH_DAYS
    && Offer(zone, window, digest, candidate, LocalDay(zone, candidate) + offset) == Some(found)
    && forall earlier | 0 <= earlier < offset :: NoOffer(zone, window, digest, candidate, earlier)
  }

  predicate NoOffer(zone: Zone, window: Window, digest: nat, candidate: int, offset: nat) {
    Offer(zone, window, digest, candidate, LocalDay(zone, candidate) + offset).None?
  }

  /** The first offer, on whichever day it falls. */
  ghost predicate IsWindowTime(zone: Zone, window: Window, digest: nat, candidate: int, found: int) {
    exists offset: nat :: IsFirstOffer(zone, window, digest, candidate, offset, found)
  }

  /** Searches a year of windows; without any offer there is no next run. */
  method NextWindowTime(zone: Zone, window: Window, digest: nat, candidate: int)
    returns (found: Option<int>, ghost offset: nat)
    ensures found.Some? ==> IsFirstOffer(zone, window, digest, candidate, offset, found.value)
    ensures found.None? ==> forall o: nat | o < SEARCH_DAYS :: NoOffer(zone, window, digest, candidate, o)
  {
    var firstDay := LocalDay(zone, candidate);
    for i := 0 to SEARCH_DAYS
      invariant forall o: nat | o < i :: NoOffer(zone, window, digest, candidate, o)
    {
      offset := i;
      var bounds := WindowBounds(zone, window, firstDay + i);
      if bounds.Some? {
        var Bounds(start, end) := bounds.value;
        if start <= candidate < end { return Some(candidate), i; }
        if candidate < start {
          var jittered := start + JitterSeconds(digest) * SECOND;
          if jittered < end { return Some(jittered), i; }
        }
      }
      assert NoOffer(zone, window, digest, candidate, i);
    }
    return None, 0;
  }

  lemma WindowTimeIsNotBefore(zone: Zone, window: Window, digest: nat, candidate: int, found: int)
    requires IsWindowTime(zone, window, digest, candidate, found)
    ensures candidate <= found
  {
    var offset: nat :| IsFirstOffer(zone, window, digest, candidate, offset, found);
    OfferIsInWindow(zone, window, digest, candidate, LocalDay(zone, candidate) + offset);
  }

  /** A candidate has one window time at most. */
  lemma WindowTimeIsUnique(zone: Zone, window: Window, digest: nat, candidate: int, one: int, other: int)
    requires IsWindowTime(zone, window, digest, candidate, one) && IsWindowTime(zone, window, digest, candidate, other)
    ensures one == other
  {
    var m: nat :| IsFirstOffer(zone, window, digest, candidate, m, one);
    var n: nat :| IsFirstOffer(zone, window, digest, candidate, n, other);
    FirstOfferIsUnique(zone, window, digest, candidate, m, one, n, other);
  }

  lemma FirstOfferIsUnique(
    zone: Zone, window: Window, digest: nat, candidate: int, m: nat, one: int, n: nat, other: int)
    requires IsFirstOffer(zone, window, digest, candidate, m, one) && IsFirstOffer(zone, window, digest, candidate, n, other)
    ensures one == other
  {
    FirstOfferIsEarliest(zone, window, digest, candidate, m, one, n, other);
    FirstOfferIsEarliest(zone, window, digest, candidate, n, other, m, one);
    assert Some(one) == Offer(zone, window, digest, candidate, LocalDay(zone, candidate) + m) == Some(other);
  }

  lemma FirstOfferIsEarliest(
    zone: Zone, window: Window, digest: nat, candidate: int, m: nat, one: int, n: nat, other: int)
    requires IsFirstOffer(zone, window, digest, candidate, m, one) && IsFirstOffer(zone, window, digest, candidate, n, other)
    ensures m <= n
  {
    assert !NoOffer(zone, window, digest, candidate, n);
  }

  lemma NoOfferNoWindowTime(zone: Zone, window: Window, digest: nat, candidate: int)
    requires forall o: nat | o < SEARCH_DAYS :: NoOffer(zone, window, digest, candidate, o)
    ensures forall t :: !IsWindowTime(zone, window, digest, candidate, t)
  {
    forall t, o: nat
      ensures !IsFirstOffer(zone, window, digest, candidate, o, t)
    {
      assert o < SEARCH_DAYS ==> NoOffer(zone, window, digest, candidate, o);
    }
  }

  /** In any zone an offer is not before the candidate and lies inside the window of a listed weekday. */
  lemma OfferIsInWindow(zone: Zone, window: Window, digest: nat, candidate: int, day: int)
    requires Offer(zone, window, digest, candidate, day).Some?
    ensures
      var found, bounds := Offer(zone, window, digest, candidate, day).value, WindowBounds(zone, window, day);
      && candidate <= found && Weekday(day) in window.weekdays
      && bounds.Some? && bounds.value.start <= found < bounds.value.end
  {
  }

  lemma LocalDayHolds(zone: Zone, instant: int, day: int)
    ensures LocalDay(zone, instant) == day <==> day * DAY <= instant + zone.offsetAt(instant) < (day + 1) * DAY
  {
    DayIsWhereTheInstantLies(zone.offsetAt(instant), instant, day);
  }

  /******* Days, readings and bounds without their functions *******/

  /** Weekdays follow each other from Thursday, 1 January 1970; 1 January 2024 was a Monday. */
  lemma WeekdaysFollow(day: int)
    ensures Weekday(0) == 3 && Weekday(19_723) == 0
    ensures Weekday(day + 1) == if Weekday(day) == 6 then 0 else Weekday(day) + 1
  {
  }

  /** An instant that the zone maps to the wall time, and the wall time, with the instant's fold, back to it. */
  predicate Reads(zone: Zone, instant: int, wall: int) {
    && instant + zone.offsetAt(instant) == wall && (zone.foldAt(instant) == 0 || zone.foldAt(instant) == 1)
    && wall - zone.wallOffset(wall, zone.foldAt(instant)) == instant
  }

  lemma ReadingsExactly(zone: Zone, wall: int)
    ensures forall instant :: instant in Readings(zone, wall) <==> Reads(zone, instant, wall)
  {
  }

  /** A window runs from the earliest reading of its first wall time to the latest of its last, if both have one. */
  ghost predicate IsWindowOf(zone: Zone, window: Window, day: int, start: int, end: int) {
    var first, last := (day * 24 + window.startHour) * 3_600_000_000, (day * 24 + window.startHour + window.durationHours) * 3_600_000_000;
    && Weekday(day) in window.weekdays
    && Reads(zone, start, first) && (forall other | Reads(zone, other, first) :: start <= other)
    && Reads(zone, end, last) && (forall other | Reads(zone, other, last) :: other <= end)
  }

  lemma BoundsExactly(zone: Zone, window: Window, day: int, start: int, end: int)
    ensures WindowBounds(zone, window, day) == Some(Bounds(start, end)) <==> IsWindowOf(zone, window, day, start, end)
  {
    var first := day * DAY + window.startHour * HOUR;
    ReadingsExactly(zone, first);
    ReadingsExactly(zone, first + window.durationHours * HOUR);
  }

  /** An instant is within a window exactly if it lies in that of its own local day, its end excluded. */
  lemma WithinExactly(zone: Zone, window: Window, instant: int)
    ensures IsWithinWindow(zone, window, instant) <==>
      exists day, start, end ::
        && day * DAY <= instant + zone.offsetAt(instant) < (day + 1) * DAY
        && IsWindowOf(zone, window, day, start, end) && start <= instant < end
  {
    var day := LocalDay(zone, instant);
    forall other | other * DAY <= instant + zone.offsetAt(instant) < (other + 1) * DAY
      ensures other == day
    {
      LocalDayHolds(zone, instant, other);
    }
    LocalDayHolds(zone, instant, day);
    forall start, end
      ensures WindowBounds(zone, window, day) == Some(Bounds(start, end)) <==> IsWindowOf(zone, window, day, start, end)
    {
      BoundsExactly(zone, window, day, start, end);
    }
    var bounds := WindowBounds(zone, window, day);
    if bounds.Some? {
      assert bounds == Some(Bounds(bounds.value.start, bounds.value.end));
      assert IsWindowOf(zone, window, day, bounds.value.start, bounds.value.end);
    }
  }

  /** Every jitter from a second to a quarter of an hour occurs, and no other. */
  lemma JittersCoverAQuarter(jitter: int)
    ensures (exists digest: nat :: JitterSeconds(digest) == jitter) <==> 1 <= jitter <= 900
  {
    if 1 <= jitter <= 900 { assert JitterSeconds(jitter - 1) == jitter; }
  }

  /******* Zones with one offset *******/

  ghost predicate IsFixed(zone: Zone, offset: int) {
    && (forall t :: zone.offsetAt(t) == offset && zone.foldAt(t) == 0)
    && (forall w, f :: zone.wallOffset(w, f) == offset)
  }

  /** With one offset every wall time has exactly one reading. */
  lemma FixedReadings(zone: Zone, offset: int, wall: int)
    requires IsFixed(zone, offset)
    ensures Readings(zone, wall) == {wall - offset}
    ensures Earliest(zone, wall) == Latest(zone, wall) == wall - offset
  {
    assert IsReading(zone, wall, 0) && !IsReading(zone, wall, 1);
  }

  function FixedStart(offset: int, window: Window, day: int): int {
    day * DAY + window.startHour * HOUR - offset
  }

  function FixedEnd(offset: int, window: Window, day: int): int {
    FixedStart(offset, window, day) + window.durationHours * HOUR
  }

  lemma FixedBounds(zone: Zone, offset: int, window: Window, day: int)
    requires IsFixed(zone, offset)
    ensures WindowBounds(zone, window, day) ==
      if Weekday(day) !in window.weekdays then None
      else Some(Bounds(FixedStart(offset, window, day), FixedEnd(offset, window, day)))
  {
    var start := day * DAY + window.startHour * HOUR;
    FixedReadings(zone, offset, start);
    FixedReadings(zone, offset, start + window.durationHours * HOUR);
  }

  /** A listed day offers its window to every candidate that is not already past it. */
  function FixedOffer(offset: int, window: Window, digest: nat, candidate: int, day: int): Option<int> {
    if Weekday(day) !in window.weekdays || FixedEnd(offset, window, day) <= candidate then None
    else if FixedStart(offset, window, day) <= candidate then Some(candidate)
    else Some(FixedStart(offset, window, day) + JitterSeconds(digest) * SECOND)
  }

  lemma OfferIsFixed(zone: Zone, offset: int, window: Window, digest: nat, candidate: int, day: int)
    requires IsFixed(zone, offset) && WellFormed(window)
    ensures Offer(zone, window, digest, candidate, day) == FixedOffer(offset, window, digest, candidate, day)
  {
    FixedBounds(zone, offset, window, day);
  }

  function FixedDay(offset: int, instant: int): int {
    (instant + offset) / DAY
  }

  ghost predicate IsFirstFixedOffer(offset: int, window: Window, digest: nat, candidate: int, days: nat, found: int) {
    && FixedOffer(offset, window, digest, candidate, FixedDay(offset, candidate) + days) == Some(found)
    && forall earlier | 0 <= earlier < days :: NoFixedOffer(offset, window, digest, candidate, earlier)
  }

  predicate NoFixedOffer(offset: int, window: Window, digest: nat, candidate: int, days: int) {
    FixedOffer(offset, window, digest, candidate, FixedDay(offset, candidate) + days).None?
  }

  lemma WeekdayComesUp(day: int, weekday: int) returns (days: nat)
    requires 0 <= weekday < 7
    ensures days < 7 && Weekday(day + days) == weekday
  {
    days := (weekday - Weekday(day)) % 7;
  }

  lemma FixedOffersWithinAWeek(offset: int, window: Window, digest: nat, candidate: int) returns (days: nat)
    requires WellFormed(window)
    ensures days <= 7 && !NoFixedOffer(offset, window, digest, candidate, days)
  {
    var first := FixedDay(offset, candidate);
    var weekday :| weekday in window.weekdays;
    days := WeekdayComesUp(first, weekday);
    if NoFixedOffer(offset, window, digest, candidate, days) {
      days := 7;
      assert Weekday(first + 7) == Weekday(first);
    }
  }

  /** Within a week and a day some window is offered, so the search never comes back empty. */
  lemma FixedZoneAlwaysOffers(zone: Zone, offset: int, window: Window, digest: nat, candidate: int)
    requires IsFixed(zone, offset) && WellFormed(window)
    ensures exists days: nat :: days <= 7 && !NoOffer(zone, window, digest, candidate, days)
  {
    var days := FixedOffersWithinAWeek(offset, window, digest, candidate);
    OfferIsFixed(zone, offset, window, digest, candidate, LocalDay(zone, candidate) + days);
    assert !NoOffer(zone, window, digest, candidate, days);
  }

  lemma DayIsWhereTheInstantLies(offset: int, instant: int, day: int)
    ensures FixedDay(offset, instant) == day <==> day * DAY <= instant + offset < (day + 1) * DAY
  {
  }

  lemma FirstFixedOfferIsWithinAWeek(offset: int, window: Window, digest: nat, candidate: int, days: nat, found: int)
    requires WellFormed(window) && IsFirstFixedOffer(offset, window, digest, candidate, days, found)
    ensures days <= 7
    ensures days == 7 ==> FixedEnd(offset, window, FixedDay(offset, candidate)) <= candidate
  {
    var latest := FixedOffersWithinAWeek(offset, window, digest, candidate);
    if days == 7 {
      assert NoFixedOffer(offset, window, digest, candidate, 0);
      assert Weekday(FixedDay(offset, candidate) + 7) == Weekday(FixedDay(offset, candidate));
    }
  }

  lemma FirstFixedOfferIsSoon(offset: int, window: Window, digest: nat, candidate: int, days: nat, found: int)
    requires WellFormed(window) && IsFirstFixedOffer(offset, window, digest, candidate, days, found)
    ensures candidate <= found < candidate + 7 * DAY
    ensures FixedDay(offset, found) == FixedDay(offset, candidate) + days
  {
    var first := FixedDay(offset, candidate);
    FirstFixedOfferIsWithinAWeek(offset, window, digest, candidate, days, found);
    DayIsWhereTheInstantLies(offset, candidate, first);
    DayIsWhereTheInstantLies(offset, found, first + days);
    var start := FixedStart(offset, window, first + days);
    assert (first + days) * DAY <= start + offset && FixedEnd(offset, window, first + days) + offset <= (first + days + 1) * DAY;
    assert start <= found < FixedEnd(offset, window, first + days);
  }

  lemma NoEarlierFixedWindow(offset: int, window: Window, digest: nat, candidate: int, days: nat, found: int, day: int)
    requires WellFormed(window) && IsFirstFixedOffer(offset, window, digest, candidate, days, found)
    requires Weekday(day) in window.weekdays && candidate < FixedStart(offset, window, day)
    ensures FixedStart(offset, window, FixedDay(offset, candidate) + days) <= FixedStart(offset, window, day)
  {
    var first := FixedDay(offset, candidate);
    assert day >= first;
    assert !NoFixedOffer(offset, window, digest, candidate, day - first);
  }

  lemma FirstOfferIsFixed(zone: Zone, offset: int, window: Window, digest: nat, candidate: int, days: nat, found: int)
    requires IsFixed(zone, offset) && WellFormed(window) && IsFirstOffer(zone, window, digest, candidate, days, found)
    ensures IsFirstFixedOffer(offset, window, digest, candidate, days, found)
  {
    OfferIsFixed(zone, offset, window, digest, candidate, LocalDay(zone, candidate) + days);
    forall earlier: nat | earlier < days
      ensures NoFixedOffer(offset, window, digest, candidate, earlier)
    {
      NoOfferIsFixed(zone, offset, window, digest, candidate, earlier);
    }
  }

  lemma NoOfferIsFixed(zone: Zone, offset: int, window: Window, digest: nat, candidate: int, days: nat)
    requires IsFixed(zone, offset) && WellFormed(window)
    ensures NoOffer(zone, window, digest, candidate, days) <==> NoFixedOffer(offset, window, digest, candidate, days)
  {
    OfferIsFixed(zone, offset, window, digest, candidate, LocalDay(zone, candidate) + days);
  }

  lemma WithinFixedWindow(zone: Zone, offset: int, window: Window, instant: int)
    requires IsFixed(zone, offset)
    ensures
      var day := FixedDay(offset, instant);
      IsWithinWindow(zone, window, instant) <==>
        Weekday(day) in window.weekdays && FixedStart(offset, window, day) <= instant < FixedEnd(offset, window, day)
  {
    FixedBounds(zone, offset, window, LocalDay(zone, instant));
  }

  /**
   With one offset the result passes the window test and lies within seven days of the candidate.
   It is the candidate itself exactly if that passes the test.
   */
  lemma FixedZoneMeetsAWindow(
    zone: Zone, offset: int, window: Window, digest: nat, candidate: int, days: nat, found: int)
    requires IsFixed(zone, offset) && WellFormed(window) && IsFirstOffer(zone, window, digest, candidate, days, found)
    ensures candidate <= found < candidate + 7 * DAY
    ensures IsWithinWindow(zone, window, found)
    ensures found == candidate <==> IsWithinWindow(zone, window, candidate)
  {
    FirstOfferIsFixed(zone, offset, window, digest, candidate, days, found);
    FirstFixedOfferIsSoon(offset, window, digest, candidate, days, found);
    WithinFixedWindow(zone, offset, window, found);
    WithinFixedWindow(zone, offset, window, candidate);
    assert days > 0 ==> NoFixedOffer(offset, window, digest, candidate, 0);
  }

  /** Otherwise it lies, by the jitter, inside the first window that starts after the candidate. */
  lemma FixedZoneMeetsTheNextWindow(
    zone: Zone, offset: int, window: Window, digest: nat, candidate: int, days: nat, found: int, other: int)
    requires IsFixed(zone, offset) && WellFormed(window) && IsFirstOffer(zone, window, digest, candidate, days, found)
    requires found != candidate
    ensures
      var bounds := WindowBounds(zone, window, LocalDay(zone, candidate) + days);
      var others := WindowBounds(zone, window, other);
      && bounds.Some? && candidate < bounds.value.start && found == bounds.value.start + JitterSeconds(digest) * SECOND
      && (others.Some? && candidate < others.value.start ==> bounds.value.start <= others.value.start)
  {
    FirstOfferIsFixed(zone, offset, window, digest, candidate, days, found);
    FixedBounds(zone, offset, window, LocalDay(zone, candidate) + days);
    FixedBounds(zone, offset, window, other);
    if Weekday(other) in window.weekdays && candidate < FixedStart(offset, window, other) {
      NoEarlierFixedWindow(offset, window, digest, candidate, days, found, other);
    }
  }

  /******* How far the search goes *******/

  /** A zone that reads back no wall time before its `first` day, and every one from there on. */
  function OpenFrom(first: nat): Zone {
    Zone(t => 0, t => if t < first * DAY then 2 else 0, (w, f) => 0)
  }

  function EveryDay(): Window {
    Window({0, 1, 2, 3, 4, 5, 6}, 0, 24)
  }

  lemma OpenBounds(first: nat, day: nat)
    ensures WindowBounds(OpenFrom(first), EveryDay(), day) ==
      if day < first then None else Some(Bounds(day * DAY, (day + 1) * DAY))
  {
    var start := day * DAY;
    assert (day < first ==> start < first * DAY) && (first <= day ==> first * DAY <= start);
    assert IsReading(OpenFrom(first), start, 0) == (first <= day) && !IsReading(OpenFrom(first), start, 1);
  }

  lemma OpenOffer(first: nat, digest: nat, offset: nat)
    ensures NoOffer(OpenFrom(first), EveryDay(), digest, 0, offset) <==> offset < first
  {
    assert LocalDay(OpenFrom(first), 0) == 0;
    OpenBounds(first, offset);
  }

  /** The search reaches 370 days past the candidate's own and no further. */
  lemma SearchReachesExactly(first: nat, digest: nat)
    ensures (exists t :: IsWindowTime(OpenFrom(first), EveryDay(), digest, 0, t)) <==> first <= 370
  {
    var zone, window := OpenFrom(first), EveryDay();
    forall o: nat
      ensures NoOffer(zone, window, digest, 0, o) <==> o < first
    {
      OpenOffer(first, digest, o);
    }
    if first <= 370 {
      assert !NoOffer(zone, window, digest, 0, first);
      var found := Offer(zone, window, digest, 0, LocalDay(zone, 0) + first);
      assert IsFirstOffer(zone, window, digest, 0, first, found.value);
      assert IsWindowTime(zone, window, digest, 0, found.value);
    } else {
      NoOfferNoWindowTime(zone, window, digest, 0);
    }
  }

  /******* Retries before the window *******/

  const MAX_FAILURES: nat := 8
  const MAX_BACKOFF_SECONDS := 21_600

  function TwoToThe(n: nat): (power: nat)
    ensures power >= 1
  {
    if n == 0 then 1 else 2 * TwoToThe(n - 1)
  }

  /** `digests` gives the spread of each attempt. */
  function RetrySeconds(failures: nat, digests: nat -> nat): int
    requires 1 <= failures
  {
    var delay := 300 * TwoToThe(failures - 1);
    (if delay < MAX_BACKOFF_SECONDS then delay else MAX_BACKOFF_SECONDS) + digests(failures) % 61
  }

  function NextFailureCount(failures: nat): (count: nat)
    ensures 1 <= count <= MAX_FAILURES
  {
    if failures + 1 < MAX_FAILURES then failures + 1 else MAX_FAILURES
  }

  lemma {:induction false} PowersGrow(m: nat, n: nat)
    requires m <= n
    ensures TwoToThe(m) <= TwoToThe(n)
    decreases n
  {
    if m < n { PowersGrow(m, n - 1); }
  }

  /** Each retry waits between five minutes and six hours and a minute, and never less than the one before. */
  lemma RetriesBackOff(failures: nat, digests: nat -> nat)
    requires 1 <= failures <= MAX_FAILURES
    ensures 300 <= RetrySeconds(failures, digests) <= 21_660
    ensures RetrySeconds(failures, digests) <= RetrySeconds(NextFailureCount(failures), digests)
  {
    if failures < MAX_FAILURES {
      assert TwoToThe(failures) == 2 * TwoToThe(failures - 1);
      if failures == 7 { assert TwoToThe(6) == 64; }
    }
    if failures < 7 { PowersGrow(failures, 6); assert TwoToThe(6) == 64; }
  }
}
