/**
 The window test of the dispatcher against the times that the search for a window finds.

 The search looks at the windows of the local days from the candidate's own one on; the test looks
 at the local day of the instant itself. The two differ where clocks fall back across a midnight,
 and, in zones as they are, nowhere else.
 */
module WindowTest {
  import opened Common
  import opened RecurrenceWindow

  /** Whatever the search finds, for any window, candidate and jitter, passes the test. */
  ghost predicate EveryOfferPasses(zone: Zone) {
    forall window, digest: nat, candidate, offset: nat, found
      | WellFormed(window) && IsFirstOffer(zone, window, digest, candidate, offset, found) ::
      IsWithinWindow(zone, window, found)
  }

  /** The bounds of a window are readings of its first and its last wall time. */
  lemma BoundsAreReadings(zone: Zone, window: Window, day: int)
    requires WellFormed(window) && WindowBounds(zone, window, day).Some?
    ensures
      var Bounds(start, end) := WindowBounds(zone, window, day).value;
      && LocalDay(zone, start) == day && end + zone.offsetAt(end) <= (day + 1) * DAY
  {
    var Bounds(start, end) := WindowBounds(zone, window, day).value;
    LocalDayHolds(zone, start, day);
  }

  /******* Zones as they are *******/

  /** The offset changes at the instant `at`. */
  datatype Change = Change(at: int, before: int, after: int)

  predicate BoundedOffset(zone: Zone, instant: int) {
    -DAY < zone.offsetAt(instant) < DAY
  }

  /** The instant is the reading of its own wall time. */
  predicate ReadsBack(zone: Zone, instant: int) {
    zone.foldAt(instant) in {0, 1} && Candidate(zone, instant + zone.offsetAt(instant), zone.foldAt(instant)) == instant
  }

  function OffsetOf(change: Change, instant: int): int {
    if instant < change.at then change.before else change.after
  }

  /** Around a day the offset is that of one change. */
  ghost predicate ChangesOnce(zone: Zone, change: Change, day: int) {
    forall t | (day - 1) * DAY <= t <= (day + 2) * DAY :: zone.offsetAt(t) == OffsetOf(change, t)
  }

  ghost predicate ChangesAtMostOnce(zone: Zone, day: int) {
    exists change :: ChangesOnce(zone, change, day)
  }

  /**
   Offsets are less than a day, every instant can be read back from its wall time, and in no three
   days is there more than one change.
   */
  ghost predicate IsRegular(zone: Zone) {
    && (forall t :: BoundedOffset(zone, t) && ReadsBack(zone, t))
    && (forall day :: ChangesAtMostOnce(zone, day))
  }

  /** At an instant the clock falls back from after a midnight to before it. */
  predicate FallsAcross(zone: Zone, at: int, day: int) {
    at + zone.offsetAt(at) < day * DAY < at + zone.offsetAt(at - 1)
  }

  /** The midnight that begins the day lies strictly inside a stretch of wall time that is repeated. */
  ghost predicate MidnightReturns(zone: Zone, day: int) {
    exists at :: FallsAcross(zone, at, day)
  }

  /******* Without such a midnight every offer passes *******/

  lemma BoundsAreNear(zone: Zone, window: Window, day: int)
    requires WellFormed(window) && WindowBounds(zone, window, day).Some? && forall t :: BoundedOffset(zone, t)
    ensures
      var Bounds(start, end) := WindowBounds(zone, window, day).value;
      (day - 1) * DAY < start && end < (day + 2) * DAY
  {
    var Bounds(start, end) := WindowBounds(zone, window, day).value;
    assert BoundedOffset(zone, start) && BoundedOffset(zone, end);
  }

  lemma StartLeavesAnHour(zone: Zone, window: Window, day: int)
    requires WellFormed(window) && WindowBounds(zone, window, day).Some?
    ensures
      var start := WindowBounds(zone, window, day).value.start;
      start + zone.offsetAt(start) + HOUR <= (day + 1) * DAY
  {
  }

  /** What lies behind the start of a day's window does not lie on an earlier day. */
  lemma NotOnAnEarlierDay(zone: Zone, change: Change, day: int, start: int, instant: int)
    requires ChangesOnce(zone, change, day) && !FallsAcross(zone, change.at, day)
    requires (day - 1) * DAY < start <= instant <= (day + 2) * DAY && day * DAY <= start + zone.offsetAt(start)
    ensures day * DAY <= instant + zone.offsetAt(instant)
  {
    assert zone.offsetAt(start) == OffsetOf(change, start) && zone.offsetAt(instant) == OffsetOf(change, instant);
    if start < change.at <= instant {
      assert zone.offsetAt(change.at) == OffsetOf(change, change.at);
      assert zone.offsetAt(change.at - 1) == OffsetOf(change, change.at - 1);
    }
  }

  /** What lies less than an hour behind the start of a day's window and before its end does not lie on a later day. */
  lemma NotOnALaterDay(zone: Zone, change: Change, day: int, start: int, instant: int, end: int)
    requires ChangesOnce(zone, change, day)
    requires (day - 1) * DAY < start <= instant < end <= (day + 2) * DAY && instant < start + HOUR
    requires start + zone.offsetAt(start) + HOUR <= (day + 1) * DAY && end + zone.offsetAt(end) <= (day + 1) * DAY
    ensures instant + zone.offsetAt(instant) < (day + 1) * DAY
  {
    assert zone.offsetAt(start) == OffsetOf(change, start) && zone.offsetAt(instant) == OffsetOf(change, instant);
    assert zone.offsetAt(end) == OffsetOf(change, end);
  }

  /** An offer is the candidate, or less than an hour behind the start of the window. */
  lemma OfferIsCandidateOrEarly(zone: Zone, window: Window, digest: nat, candidate: int, day: int, found: int)
    requires Offer(zone, window, digest, candidate, day) == Some(found)
    ensures WindowBounds(zone, window, day).Some?
    ensures
      var Bounds(start, end) := WindowBounds(zone, window, day).value;
      start <= found < end && (found == candidate || found < start + HOUR)
  {
  }

  lemma OfferIsNotEarly(zone: Zone, change: Change, window: Window, day: int, found: int)
    requires WellFormed(window) && (forall t :: BoundedOffset(zone, t))
    requires ChangesOnce(zone, change, day) && !FallsAcross(zone, change.at, day)
    requires WindowBounds(zone, window, day).Some?
    requires WindowBounds(zone, window, day).value.start <= found < WindowBounds(zone, window, day).value.end
    ensures day * DAY <= found + zone.offsetAt(found)
  {
    var Bounds(start, end) := WindowBounds(zone, window, day).value;
    BoundsAreReadings(zone, window, day);
    BoundsAreNear(zone, window, day);
    LocalDayHolds(zone, start, day);
    NotOnAnEarlierDay(zone, change, day, start, found);
  }

  lemma EarlyOfferIsNotLate(zone: Zone, change: Change, window: Window, day: int, found: int)
    requires WellFormed(window) && (forall t :: BoundedOffset(zone, t)) && ChangesOnce(zone, change, day)
    requires WindowBounds(zone, window, day).Some?
    requires WindowBounds(zone, window, day).value.start <= found < WindowBounds(zone, window, day).value.end
    requires found < WindowBounds(zone, window, day).value.start + HOUR
    ensures found + zone.offsetAt(found) < (day + 1) * DAY
  {
    var Bounds(start, end) := WindowBounds(zone, window, day).value;
    BoundsAreReadings(zone, window, day);
    BoundsAreNear(zone, window, day);
    StartLeavesAnHour(zone, window, day);
    NotOnALaterDay(zone, change, day, start, found, end);
  }

  lemma OfferStaysInItsDay(
    zone: Zone, change: Change, window: Window, digest: nat, candidate: int, day: int, found: int)
    requires WellFormed(window) && (forall t :: BoundedOffset(zone, t))
    requires ChangesOnce(zone, change, day) && !FallsAcross(zone, change.at, day)
    requires Offer(zone, window, digest, candidate, day) == Some(found) && LocalDay(zone, candidate) <= day
    ensures LocalDay(zone, found) == day
  {
    OfferIsCandidateOrEarly(zone, window, digest, candidate, day, found);
    OfferIsNotEarly(zone, change, window, day, found);
    if found != candidate { EarlyOfferIsNotLate(zone, change, window, day, found); }
    LocalDayHolds(zone, found, LocalDay(zone, found));
    LocalDayHolds(zone, found, day);
  }

  lemma OwnDayPasses(zone: Zone, window: Window, digest: nat, candidate: int, day: int, found: int)
    requires Offer(zone, window, digest, candidate, day) == Some(found) && LocalDay(zone, found) == day
    ensures IsWithinWindow(zone, window, found)
  {
  }

  lemma OffersPassWithoutReturn(zone: Zone)
    requires IsRegular(zone) && forall day :: !MidnightReturns(zone, day)
    ensures EveryOfferPasses(zone)
  {
    forall window, digest: nat, candidate, offset: nat, found
      | WellFormed(window) && IsFirstOffer(zone, window, digest, candidate, offset, found)
      ensures IsWithinWindow(zone, window, found)
    {
      var day := LocalDay(zone, candidate) + offset;
      assert ChangesAtMostOnce(zone, day) && !MidnightReturns(zone, day);
      var change :| ChangesOnce(zone, change, day);
      OfferStaysInItsDay(zone, change, window, digest, candidate, day, found);
      OwnDayPasses(zone, window, digest, candidate, day, found);
    }
  }

  /******* With such a midnight some offer fails *******/

  function FirstHourOf(day: int): Window {
    Window({Weekday(day)}, 0, 1)
  }

  lemma ReadingIsFound(zone: Zone, instant: int)
    requires ReadsBack(zone, instant)
    ensures instant in Readings(zone, instant + zone.offsetAt(instant))
  {
  }

  lemma FallIsTheChange(zone: Zone, change: Change, at: int, day: int)
    requires ChangesOnce(zone, change, day) && FallsAcross(zone, at, day)
    requires BoundedOffset(zone, at) && BoundedOffset(zone, at - 1)
    ensures at == change.at && zone.offsetAt(at - 1) == change.before && zone.offsetAt(at) == change.after
    ensures (day - 1) * DAY < at < (day + 1) * DAY
  {
    assert zone.offsetAt(at) == OffsetOf(change, at) && zone.offsetAt(at - 1) == OffsetOf(change, at - 1);
  }

  /** The first hour of the day begins before the clock falls back, and ends behind that. */
  lemma FirstHourHoldsTheFall(zone: Zone, at: int, day: int)
    requires IsRegular(zone) && FallsAcross(zone, at, day)
    ensures
      var bounds := WindowBounds(zone, FirstHourOf(day), day);
      bounds.Some? && bounds.value.start <= at < bounds.value.end
  {
    assert ChangesAtMostOnce(zone, day) && BoundedOffset(zone, at) && BoundedOffset(zone, at - 1);
    var change :| ChangesOnce(zone, change, day);
    FallIsTheChange(zone, change, at, day);
    var first, last := day * DAY - change.before, day * DAY + HOUR - change.after;
    assert zone.offsetAt(first) == OffsetOf(change, first) && zone.offsetAt(last) == OffsetOf(change, last);
    assert first in Readings(zone, day * DAY) by {
      assert ReadsBack(zone, first);
      ReadingIsFound(zone, first);
    }
    assert last in Readings(zone, day * DAY + HOUR) by {
      assert ReadsBack(zone, last);
      ReadingIsFound(zone, last);
    }
    FirstHourSpans(zone, day, first, last);
  }

  lemma FirstHourSpans(zone: Zone, day: int, first: int, last: int)
    requires first in Readings(zone, day * DAY) && last in Readings(zone, day * DAY + HOUR)
    ensures
      var bounds := WindowBounds(zone, FirstHourOf(day), day);
      bounds.Some? && bounds.value.start <= first && last <= bounds.value.end
  {
  }

  lemma NextWeekdaysDiffer(day: int, days: nat)
    requires 1 <= days < 7
    ensures Weekday(day - days) != Weekday(day)
  {
  }

  /** The instant of the fall lies one or two days before the day whose first hour holds it. */
  lemma FallLiesBefore(zone: Zone, at: int, day: int)
    requires FallsAcross(zone, at, day) && BoundedOffset(zone, at) && BoundedOffset(zone, at - 1)
    ensures day - 2 <= LocalDay(zone, at) < day
  {
    LocalDayHolds(zone, at, LocalDay(zone, at));
  }

  /** So the search, from that instant on, finds it in a window that the test does not look at. */
  lemma OfferAtTheFallFails(zone: Zone, at: int, day: int)
    requires IsRegular(zone) && FallsAcross(zone, at, day)
    ensures
      && WellFormed(FirstHourOf(day)) && LocalDay(zone, at) < day
      && IsFirstOffer(zone, FirstHourOf(day), 0, at, day - LocalDay(zone, at), at)
      && !IsWithinWindow(zone, FirstHourOf(day), at)
  {
    assert BoundedOffset(zone, at) && BoundedOffset(zone, at - 1);
    FirstHourHoldsTheFall(zone, at, day);
    FallLiesBefore(zone, at, day);
    assert Weekday(day) in FirstHourOf(day).weekdays;
    forall earlier | LocalDay(zone, at) <= earlier < day
      ensures WindowBounds(zone, FirstHourOf(day), earlier).None?
    {
      NextWeekdaysDiffer(day, day - earlier);
    }
    forall earlier | 0 <= earlier < day - LocalDay(zone, at)
      ensures NoOffer(zone, FirstHourOf(day), 0, at, earlier)
    {
    }
  }

  /**
   The exact condition: in a zone as they are, everything that the search finds passes the window
   test if and only if no midnight lies strictly inside a stretch of wall time that is repeated.
   */
  lemma EveryOfferPassesExactly(zone: Zone)
    requires IsRegular(zone)
    ensures EveryOfferPasses(zone) <==> forall day :: !MidnightReturns(zone, day)
  {
    if day :| MidnightReturns(zone, day) {
      var at :| FallsAcross(zone, at, day);
      OfferAtTheFallFails(zone, at, day);
    } else {
      OffersPassWithoutReturn(zone);
    }
  }

  /******* Any zone *******/

  /** Once a local day has begun, the zone never falls back to its midnight or past it. */
  ghost predicate DaysNeverReturn(zone: Zone) {
    forall s, t | s < t :: LocalDay(zone, s) * DAY < t + zone.offsetAt(t)
  }

  lemma LaterLocalDay(zone: Zone, s: int, t: int)
    requires DaysNeverReturn(zone) && s <= t
    ensures LocalDay(zone, s) <= LocalDay(zone, t)
    ensures s < t ==> LocalDay(zone, s) * DAY < t + zone.offsetAt(t)
  {
    LocalDayHolds(zone, t, LocalDay(zone, t));
  }

  /** There a window lies in its own local day. */
  lemma WindowStaysInItsDay(zone: Zone, window: Window, day: int, instant: int)
    requires WellFormed(window) && DaysNeverReturn(zone) && WindowBounds(zone, window, day).Some?
    requires WindowBounds(zone, window, day).value.start <= instant < WindowBounds(zone, window, day).value.end
    ensures LocalDay(zone, instant) == day
  {
    var Bounds(start, end) := WindowBounds(zone, window, day).value;
    BoundsAreReadings(zone, window, day);
    LaterLocalDay(zone, start, instant);
    LaterLocalDay(zone, instant, end);
  }

  /** In every zone that does not fall back to or across a midnight, what the search finds passes the window test. */
  lemma OffersPassWhereDaysNeverReturn(zone: Zone, window: Window, digest: nat, candidate: int, offset: nat, found: int)
    requires WellFormed(window) && DaysNeverReturn(zone) && IsFirstOffer(zone, window, digest, candidate, offset, found)
    ensures IsWithinWindow(zone, window, found)
  {
    var day := LocalDay(zone, candidate) + offset;
    OfferIsInWindow(zone, window, digest, candidate, day);
    WindowStaysInItsDay(zone, window, day, found);
  }

  /******* One hour *******/

  /** A zone that falls back by an hour at the instant `change`. */
  function FallingBack(change: int): Zone {
    Zone(t => if t < change then HOUR else 0,
         t => if change <= t < change + HOUR then 1 else 0,
         (w, f) => if w < change || (w < change + HOUR && f == 0) then HOUR else 0)
  }

  lemma FallingBackIsRegular(change: int)
    ensures IsRegular(FallingBack(change))
  {
    var zone := FallingBack(change);
    forall day
      ensures ChangesAtMostOnce(zone, day)
    {
      assert ChangesOnce(zone, Change(change, HOUR, 0), day);
    }
  }

  predicate MidnightWithin(change: int, day: int) {
    change < day * DAY < change + HOUR
  }

  lemma FallingBackReturns(change: int, day: int)
    ensures MidnightReturns(FallingBack(change), day) <==> MidnightWithin(change, day)
  {
    if MidnightWithin(change, day) { assert FallsAcross(FallingBack(change), change, day); }
  }

  /** With one change by an hour: everything passes exactly if that hour holds no midnight between its ends. */
  lemma FallingBackPassesExactly(change: int)
    ensures EveryOfferPasses(FallingBack(change)) <==> forall day :: !MidnightWithin(change, day)
  {
    FallingBackIsRegular(change);
    EveryOfferPassesExactly(FallingBack(change));
    forall day
      ensures MidnightReturns(FallingBack(change), day) <==> MidnightWithin(change, day)
    {
      FallingBackReturns(change, day);
    }
  }

  const MINUTE := 60 * SECOND

  /** Falls back from five past midnight of `day` to five past eleven of the evening before. */
  function AcrossMidnight(day: int): Zone {
    FallingBack(day * DAY - 55 * MINUTE)
  }

  lemma FirstHourBounds(day: int)
    ensures WindowBounds(AcrossMidnight(day), FirstHourOf(day), day) == Some(Bounds(day * DAY - HOUR, day * DAY + HOUR))
    ensures WindowBounds(AcrossMidnight(day), FirstHourOf(day), day - 1) == None
  {
    var zone := AcrossMidnight(day);
    assert IsReading(zone, day * DAY, 0) && IsReading(zone, day * DAY + HOUR, 0) && !IsReading(zone, day * DAY + HOUR, 1);
    assert Earliest(zone, day * DAY) == day * DAY - HOUR && Latest(zone, day * DAY + HOUR) == day * DAY + HOUR;
  }

  lemma DaysAcrossMidnight(day: int, jitter: int)
    requires 1 <= jitter <= MAX_JITTER_SECONDS
    ensures LocalDay(AcrossMidnight(day), day * DAY - 2 * HOUR) == day - 1
    ensures LocalDay(AcrossMidnight(day), day * DAY - HOUR + jitter * SECOND) == if jitter < 300 then day else day - 1
  {
    LocalDayHolds(AcrossMidnight(day), day * DAY - 2 * HOUR, day - 1);
    var instant := day * DAY - HOUR + jitter * SECOND;
    assert AcrossMidnight(day).offsetAt(instant) == if jitter < 300 then HOUR else 0;
    LocalDayHolds(AcrossMidnight(day), instant, if jitter < 300 then day else day - 1);
  }

  lemma JitteredStartIsOffered(zone: Zone, window: Window, digest: nat, candidate: int, day: int, bounds: Bounds)
    requires WindowBounds(zone, window, day) == Some(bounds)
    requires candidate < bounds.start && bounds.start + JitterSeconds(digest) * SECOND < bounds.end
    ensures Offer(zone, window, digest, candidate, day) == Some(bounds.start + JitterSeconds(digest) * SECOND)
  {
  }

  lemma NoWindowNoOffer(zone: Zone, window: Window, digest: nat, candidate: int)
    requires WindowBounds(zone, window, LocalDay(zone, candidate)).None?
    ensures NoOffer(zone, window, digest, candidate, 0)
  {
    assert LocalDay(zone, candidate) + 0 == LocalDay(zone, candidate);
  }

  lemma SecondDayOffers(zone: Zone, window: Window, digest: nat, candidate: int, found: int)
    requires NoOffer(zone, window, digest, candidate, 0)
    requires Offer(zone, window, digest, candidate, LocalDay(zone, candidate) + 1) == Some(found)
    ensures IsFirstOffer(zone, window, digest, candidate, 1, found)
  {
    forall earlier | 0 <= earlier < 1
      ensures NoOffer(zone, window, digest, candidate, earlier)
    {
      assert earlier == 0;
    }
  }

  /** A window that only the day after the candidate's has. */
  lemma OnlyTheNextDayOffers(zone: Zone, window: Window, digest: nat, candidate: int, day: int, bounds: Bounds)
    requires LocalDay(zone, candidate) == day - 1 && WindowBounds(zone, window, day - 1) == None
    requires WindowBounds(zone, window, day) == Some(bounds)
    requires candidate < bounds.start && bounds.start + JitterSeconds(digest) * SECOND < bounds.end
    ensures IsFirstOffer(zone, window, digest, candidate, 1, bounds.start + JitterSeconds(digest) * SECOND)
  {
    JitteredStartIsOffered(zone, window, digest, candidate, day, bounds);
    NoWindowNoOffer(zone, window, digest, candidate);
    SecondDayOffers(zone, window, digest, candidate, bounds.start + JitterSeconds(digest) * SECOND);
  }

  lemma OnlyTheNextDayHolds(zone: Zone, window: Window, day: int, bounds: Bounds, instant: int)
    requires WindowBounds(zone, window, day - 1) == None && WindowBounds(zone, window, day) == Some(bounds)
    requires bounds.start <= instant < bounds.end && LocalDay(zone, instant) in {day - 1, day}
    ensures IsWithinWindow(zone, window, instant) <==> LocalDay(zone, instant) == day
  {
  }

  /**
   Elsewhere it can fail: where the clock falls back across midnight, the first hour of the day
   begins early, and an offer that is jittered past the change lies on the day before. It passes
   exactly if the jitter stays below the five minutes until the change.
   */
  lemma OfferAcrossMidnightMayFail(day: int, digest: nat)
    ensures
      var zone, window := AcrossMidnight(day), FirstHourOf(day);
      var candidate, found := day * DAY - 2 * HOUR, day * DAY - HOUR + JitterSeconds(digest) * SECOND;
      && WellFormed(window) && IsFirstOffer(zone, window, digest, candidate, 1, found)
      && (IsWithinWindow(zone, window, found) <==> JitterSeconds(digest) < 300)
  {
    var zone, window, bounds := AcrossMidnight(day), FirstHourOf(day), Bounds(day * DAY - HOUR, day * DAY + HOUR);
    assert Weekday(day) in window.weekdays;
    FirstHourBounds(day);
    DaysAcrossMidnight(day, JitterSeconds(digest));
    OnlyTheNextDayOffers(zone, window, digest, day * DAY - 2 * HOUR, day, bounds);
    OnlyTheNextDayHolds(zone, window, day, bounds, bounds.start + JitterSeconds(digest) * SECOND);
  }
}
