/**
 Calendar dates turned into filter bounds, against the calendar date an instant is reported under. A
 zone is its offset at each instant, UTC minus local time, in milliseconds.
 */
module DateBounds {
  import opened Options
  import opened Clock

  const NOON: int := 43_200_000

  type Zone = int -> int

  /** A date argument: a full instant, or a bare calendar date as its day number since the epoch. */
  datatype DateArg = Instant(ms: int) | Day(number: int)

  /** The offset used for a whole day is the one at noon UTC of its date. */
  function DayOffset(d: int, zone: Zone): int {
    zone(d * DAY + NOON)
  }

  /** The first or the last millisecond of a calendar day in a zone. */
  function ToTzAwareDateBound(date: DateArg, zone: Zone, endOfDay: bool): int {
    match date
    case Instant(ms) => ms
    case Day(d) => if endOfDay then d * DAY + DAY - 1 + DayOffset(d, zone) else d * DAY + DayOffset(d, zone)
  }

  function UtcBound(date: DateArg, endOfDay: bool): int {
    match date
    case Instant(ms) => ms
    case Day(d) => if endOfDay then d * DAY + DAY - 1 else d * DAY
  }

  function Bound(date: DateArg, zone: Option<Zone>, endOfDay: bool): int {
    if zone.Some? then ToTzAwareDateBound(date, zone.value, endOfDay) else UtcBound(date, endOfDay)
  }

  datatype Bounds = Bounds(start: Option<int>, end: Option<int>)

  function OptionalBound(date: Option<DateArg>, zone: Option<Zone>, endOfDay: bool): Option<int> {
    if date.Some? then Some(Bound(date.value, zone, endOfDay)) else None
  }

  /** The bounds of the listings: a missing date leaves its side open. */
  function NormalizeDateBounds(startDate: Option<DateArg>, endDate: Option<DateArg>, zone: Option<Zone>): Bounds {
    Bounds(OptionalBound(startDate, zone, false), OptionalBound(endDate, zone, true))
  }

  /** The bounds of the tenant-wide listing: a missing end date is the start date again. */
  function ParseDateRange(startDate: Option<DateArg>, endDate: Option<DateArg>, zone: Option<Zone>): Bounds {
    Bounds(OptionalBound(startDate, zone, false), OptionalBound(if endDate.Some? then endDate else startDate, zone, true))
  }

  /** The filter of the queries. */
  predicate Passes(b: Bounds, t: int) {
    (b.start.Some? ==> b.start.value <= t) && (b.end.Some? ==> t <= b.end.value)
  }

  /** The calendar day an instant is reported under: its local day, or its UTC day without a zone. */
  function DayKey(t: int, zone: Option<Zone>): int {
    if zone.Some? then UtcDay(t - zone.value(t)) else UtcDay(t)
  }

  function FirstOf(d: int, zone: Zone): int { ToTzAwareDateBound(Day(d), zone, false) }

  function LastOf(d: int, zone: Zone): int { ToTzAwareDateBound(Day(d), zone, true) }

  /** Consecutive days meet up to the change of the offset between their noons. */
  lemma DaysMeetUpToOffset(d: int, zone: Zone)
    ensures LastOf(d, zone) + 1 - FirstOf(d + 1, zone) == DayOffset(d, zone) - DayOffset(d + 1, zone)
  {
  }

  /** Full instants bound the filter as they are, with or without a zone, and a missing side is open. */
  lemma InstantsBound(a: Option<int>, b: Option<int>, zone: Option<Zone>, t: int)
    ensures var start, end := if a.Some? then Some(Instant(a.value)) else None, if b.Some? then Some(Instant(b.value)) else None;
            Passes(NormalizeDateBounds(start, end, zone), t)
            <==> (a.Some? ==> a.value <= t) && (b.Some? ==> t <= b.value)
  {
  }

  /** Without a zone a calendar day runs from its first to its last millisecond in UTC. */
  lemma UtcDayBounds(d: int)
    ensures NormalizeDateBounds(Some(Day(d)), Some(Day(d)), None) == Bounds(Some(d * 86_400_000), Some(d * 86_400_000 + 86_399_999))
  {
  }

  /** The tenant-wide listing of a start date alone is that of the one day, and without dates that of all time. */
  lemma RangeOfOneDay(d: DateArg, zone: Option<Zone>)
    ensures ParseDateRange(Some(d), None, zone) == NormalizeDateBounds(Some(d), Some(d), zone)
    ensures ParseDateRange(None, None, zone) == Bounds(None, None)
  {
  }

  lemma DayOf(t: int, d: int)
    ensures UtcDay(t) == d <==> d * DAY <= t < (d + 1) * DAY
    ensures UtcDay(t) >= d <==> d * DAY <= t
    ensures UtcDay(t) <= d <==> t < (d + 1) * DAY
  {
  }

  /** Without a zone an instant passes the filter of a range of dates iff its UTC day lies in the range. */
  lemma UtcFilterMatches(first: int, last: int, t: int)
    ensures Passes(NormalizeDateBounds(Some(Day(first)), Some(Day(last)), None), t) <==> first <= DayKey(t, None) <= last
  {
    DayOf(t, first);
    DayOf(t, last);
  }

  /** The start of day d, and the end of day d, treat an instant as the day it is reported under does. */
  predicate StartAgrees(d: int, zone: Zone, t: int) {
    FirstOf(d, zone) <= t <==> d <= DayKey(t, Some(zone))
  }

  predicate EndAgrees(d: int, zone: Zone, t: int) {
    t <= LastOf(d, zone) <==> DayKey(t, Some(zone)) <= d
  }

  /** The instant lies between two readings of the same midnight. */
  predicate Disputed(a: int, b: int, t: int) {
    a <= t < b || b <= t < a
  }

  /** A side disagrees on the instants between its midnight by the noon's offset and by their own offset. */
  lemma SidesMatchDayKeyIff(d: int, zone: Zone, t: int)
    ensures StartAgrees(d, zone, t) <==> !Disputed(d * DAY + DayOffset(d, zone), d * DAY + zone(t), t)
    ensures EndAgrees(d, zone, t) <==> !Disputed((d + 1) * DAY + DayOffset(d, zone), (d + 1) * DAY + zone(t), t)
  {
    DayOf(t - zone(t), d);
  }

  /** Offsets stay within a day of UTC, and within a day of each other. */
  ghost predicate Plausible(zone: Zone) {
    && (forall t :: -DAY <= zone(t) <= DAY)
    && (forall s, t :: zone(s) - zone(t) <= DAY)
  }

  /** A clock change: the offset before an instant, and from it on. */
  datatype Change = Change(at: int, before: int, after: int)

  function OffsetOf(c: Change, t: int): int { if t < c.at then c.before else c.after }

  /** Around day d, from a day before it to a day after it, the zone has at most this one change. */
  ghost predicate OneChangeAround(zone: Zone, d: int, c: Change) {
    && -DAY <= c.before <= DAY && -DAY <= c.after <= DAY
    && forall t :: (d - 1) * DAY <= t <= (d + 2) * DAY ==> zone(t) == OffsetOf(c, t)
  }

  function Least(a: int, b: int): int { if a < b then a else b }

  function Greatest(a: int, b: int): int { if a < b then b else a }

  /**
   The change misplaces a midnight when it falls between the noon that decides the day's offset and the
   later, or the earlier, of the two readings of that midnight.
   */
  predicate Misplaces(c: Change, midnight: int, noon: int) {
    && c.before != c.after
    && if c.at <= noon then midnight + Least(c.before, c.after) < c.at
       else c.at < midnight + Greatest(c.before, c.after)
  }

  /** Of the instants near a midnight some is disputed iff the change misplaces that midnight. */
  lemma DisputedIffMisplaced(c: Change, midnight: int, noon: int)
    ensures Misplaces(c, midnight, noon)
            ==> exists t :: IsDisputed(c, midnight, noon, t)
                            && midnight + Least(c.before, c.after) <= t < midnight + Greatest(c.before, c.after)
    ensures forall t :: IsDisputed(c, midnight, noon, t) ==> Misplaces(c, midnight, noon)
  {
    if Misplaces(c, midnight, noon) {
      var t := if c.at <= noon then midnight + Least(c.before, c.after) else Greatest(c.at, midnight + Least(c.before, c.after));
      assert IsDisputed(c, midnight, noon, t);
    }
  }

  predicate IsDisputed(c: Change, midnight: int, noon: int, t: int) {
    Disputed(midnight + OffsetOf(c, noon), midnight + OffsetOf(c, t), t)
  }

  /** An instant of the days around is disputed by the zone iff it is by its change. */
  lemma DisputedByChange(zone: Zone, d: int, c: Change, midnight: int, t: int)
    requires OneChangeAround(zone, d, c) && (d - 1) * DAY <= t <= (d + 2) * DAY
    ensures Disputed(midnight + DayOffset(d, zone), midnight + zone(t), t) <==> IsDisputed(c, midnight, d * DAY + NOON, t)
  {
    assert zone(d * DAY + NOON) == OffsetOf(c, d * DAY + NOON);
  }

  /** Far from its midnight no instant is disputed, whatever the offsets. */
  lemma DisputedIsNear(zone: Zone, d: int, midnight: int, t: int)
    requires Plausible(zone) && Disputed(midnight + DayOffset(d, zone), midnight + zone(t), t)
    ensures midnight - DAY <= t < midnight + DAY
  {
  }

  /** The start of day d agrees with the reported days for all instants iff the change around it does not misplace its midnight. */
  lemma StartAgreesIff(d: int, zone: Zone, c: Change)
    requires Plausible(zone) && OneChangeAround(zone, d, c)
    ensures (forall t :: StartAgrees(d, zone, t)) <==> !Misplaces(c, d * DAY, d * DAY + NOON)
  {
    var midnight, noon := d * DAY, d * DAY + NOON;
    DisputedIffMisplaced(c, midnight, noon);
    if Misplaces(c, midnight, noon) {
      var t :| IsDisputed(c, midnight, noon, t)
               && midnight + Least(c.before, c.after) <= t < midnight + Greatest(c.before, c.after);
      DisputedByChange(zone, d, c, midnight, t);
      SidesMatchDayKeyIff(d, zone, t);
      assert !StartAgrees(d, zone, t);
    } else {
      forall t ensures StartAgrees(d, zone, t) {
        SidesMatchDayKeyIff(d, zone, t);
        if !StartAgrees(d, zone, t) {
          DisputedIsNear(zone, d, midnight, t);
          DisputedByChange(zone, d, c, midnight, t);
          assert false;
        }
      }
    }
  }

  /** The same for its end and the next midnight. */
  lemma EndAgreesIff(d: int, zone: Zone, c: Change)
    requires Plausible(zone) && OneChangeAround(zone, d, c)
    ensures (forall t :: EndAgrees(d, zone, t)) <==> !Misplaces(c, (d + 1) * DAY, d * DAY + NOON)
  {
    var midnight, noon := (d + 1) * DAY, d * DAY + NOON;
    DisputedIffMisplaced(c, midnight, noon);
    if Misplaces(c, midnight, noon) {
      var t :| IsDisputed(c, midnight, noon, t)
               && midnight + Least(c.before, c.after) <= t < midnight + Greatest(c.before, c.after);
      DisputedByChange(zone, d, c, midnight, t);
      SidesMatchDayKeyIff(d, zone, t);
      assert !EndAgrees(d, zone, t);
    } else {
      forall t ensures EndAgrees(d, zone, t) {
        SidesMatchDayKeyIff(d, zone, t);
        if !EndAgrees(d, zone, t) {
          DisputedIsNear(zone, d, midnight, t);
          DisputedByChange(zone, d, c, midnight, t);
          assert false;
        }
      }
    }
  }

  predicate FilterAgrees(first: int, last: int, zone: Zone, t: int) {
    Passes(NormalizeDateBounds(Some(Day(first)), Some(Day(last)), Some(zone)), t)
    <==> first <= DayKey(t, Some(zone)) <= last
  }

  /** The two sides of a range never make up for each other. */
  lemma FilterAgreesIffSidesDo(first: int, last: int, zone: Zone, t: int)
    requires Plausible(zone) && first <= last
    ensures FilterAgrees(first, last, zone, t) <==> StartAgrees(first, zone, t) && EndAgrees(last, zone, t)
  {
    DayOf(t - zone(t), first);
    DayOf(t - zone(t), last);
  }

  /**
   The filter of a range of dates passes exactly the instants reported under a date of the range iff no
   clock change misplaces the midnight the range starts at or the one it ends at; any changes between
   do not matter.
   */
  lemma FilterMatchesDayKeyIff(first: int, last: int, zone: Zone, atFirst: Change, atLast: Change)
    requires Plausible(zone) && first <= last
    requires OneChangeAround(zone, first, atFirst) && OneChangeAround(zone, last, atLast)
    ensures (forall t :: FilterAgrees(first, last, zone, t))
            <==> !Misplaces(atFirst, first * DAY, first * DAY + NOON)
                 && !Misplaces(atLast, (last + 1) * DAY, last * DAY + NOON)
  {
    StartAgreesIff(first, zone, atFirst);
    EndAgreesIff(last, zone, atLast);
    forall t ensures FilterAgrees(first, last, zone, t) <==> StartAgrees(first, zone, t) && EndAgrees(last, zone, t) {
      FilterAgreesIffSidesDo(first, last, zone, t);
    }
  }

  /** A range that ends before it starts passes nothing iff the end is not moved past the start by the offsets. */
  lemma BackwardRangePassesIff(first: int, last: int, zone: Zone)
    requires last < first
    ensures (exists t :: Passes(NormalizeDateBounds(Some(Day(first)), Some(Day(last)), Some(zone)), t))
            <==> FirstOf(first, zone) <= LastOf(last, zone)
  {
    if FirstOf(first, zone) <= LastOf(last, zone) {
      assert Passes(NormalizeDateBounds(Some(Day(first)), Some(Day(last)), Some(zone)), FirstOf(first, zone));
    }
  }

  /** In a zone of constant offset every instant is between the bounds of exactly one day, the one it is reported under. */
  lemma DaysTile(zone: Zone, t: int, d: int)
    requires forall a, b :: zone(a) == zone(b)
    ensures FirstOf(d, zone) <= t <= LastOf(d, zone) <==> d == DayKey(t, Some(zone))
    ensures LastOf(d, zone) + 1 == FirstOf(d + 1, zone)
  {
    assert zone(t) == DayOffset(d, zone) == DayOffset(d + 1, zone);
    DayOf(t - zone(t), d);
  }

  /** An instant after the last of a day and before the first of the next. */
  predicate BetweenDays(t: int, d: int, zone: Zone) { LastOf(d, zone) < t < FirstOf(d + 1, zone) }

  predicate InBothDays(t: int, d: int, zone: Zone) { FirstOf(d + 1, zone) <= t <= LastOf(d, zone) }

  /** Between two days some instant belongs to neither iff the offset grows, and some belongs to both iff it shrinks. */
  lemma ClockChangesLeaveGaps(d: int, zone: Zone)
    ensures (exists t :: BetweenDays(t, d, zone)) <==> DayOffset(d, zone) < DayOffset(d + 1, zone)
    ensures (exists t :: InBothDays(t, d, zone)) <==> DayOffset(d + 1, zone) < DayOffset(d, zone)
  {
    DaysMeetUpToOffset(d, zone);
    if DayOffset(d, zone) < DayOffset(d + 1, zone) {
      assert BetweenDays(LastOf(d, zone) + 1, d, zone);
    }
    if DayOffset(d + 1, zone) < DayOffset(d, zone) {
      assert InBothDays(LastOf(d, zone), d, zone);
    }
  }

  /** With a clock change, an instant can be reported under a day whose filter it does not pass. */
  lemma ClockChangeHidesAnInstant()
    ensures exists zone: Zone, d: int, t: int ::
              DayKey(t, Some(zone)) == d && !Passes(NormalizeDateBounds(Some(Day(d)), Some(Day(d)), Some(zone)), t)
  {
    var hour := 3_600_000;
    var zone: Zone := t => if t < hour then 0 else hour;
    assert DayOffset(0, zone) == hour;
    assert DayKey(0, Some(zone)) == 0;
    assert !Passes(NormalizeDateBounds(Some(Day(0)), Some(Day(0)), Some(zone)), 0);
  }

  /** The two ways of computing bounds differ exactly when only a start date is given. */
  lemma BoundsDifferIff(startDate: Option<DateArg>, endDate: Option<DateArg>, zone: Option<Zone>)
    ensures NormalizeDateBounds(startDate, endDate, zone) == ParseDateRange(startDate, endDate, zone)
            <==> endDate.Some? || startDate.None?
  {
  }
}
