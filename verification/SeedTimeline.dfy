/**
 The dates of one seeded reservation. Every random draw is an input constrained only by the range it
 is drawn from; times are integer microseconds in UTC, where days have a fixed length.
 */
module SeedTimeline {
  import opened Wrappers

  const MINUTE := 60_000_000
  const HOUR := 60 * MINUTE
  const DAY := 24 * HOUR

  datatype Status = RETURNED | CONFIRMED | CHECKED_OUT | CANCELLED | NO_SHOW

  datatype Dates = Dates(pickup: int, planned: int, actual: Option<int>, created: int)

  /** `ahead` tells whether the chosen period lies in the future. */
  datatype Draws = Draws(
    ahead: bool, offset: int, hour: int, minute: int,
    duration: int,
    backDays: int, returnShift: int,
    hoursAgo: int, overdue: bool, overdueHours: int, dueDays: int,
    aheadDays: int,
    leadDays: int, leadHours: int, minutesBack: int)

  function Lesser(a: int, b: int): int {
    if a <= b then a else b
  }

  /** The ranges of the draws. */
  predicate InRange(d: Draws) {
    && 1 <= d.offset <= (if d.ahead then 60 else 150)
    && 6 <= d.hour <= 21 && d.minute in {0, 15, 30, 45}
    && d.duration in {1, 2, 3, 4, 5, 6, 7, 10, 14, 21}
    && d.duration + 2 <= d.backDays <= d.duration + 60
    && -2 <= d.returnShift <= 3
    && 4 <= d.hoursAgo <= 72
    && 2 <= d.overdueHours <= Lesser(d.hoursAgo - 1, 96)
    && 1 <= d.dueDays <= d.duration
    && 1 <= d.aheadDays <= 45
    && 0 <= d.leadDays <= 30 && 0 <= d.leadHours <= 23
    && 1 <= d.minutesBack <= 120
  }

  /** Replacing the time of day keeps the date. */
  function AtTimeOfDay(t: int, hour: int, minute: int): int {
    t - t % DAY + hour * HOUR + minute * MINUTE
  }

  function DateForPeriod(now: int, d: Draws): int {
    AtTimeOfDay(if d.ahead then now + d.offset * DAY else now - d.offset * DAY, d.hour, d.minute)
  }

  /** The drawn date is `offset` days from today, at the drawn time of day. */
  lemma PeriodDate(now: int, d: Draws)
    requires InRange(d)
    ensures DateForPeriod(now, d) / 86_400_000_000 == now / 86_400_000_000 + if d.ahead then d.offset else -d.offset
    ensures DateForPeriod(now, d) % 86_400_000_000 == d.hour * 3_600_000_000 + d.minute * 60_000_000
  {
    var days := if d.ahead then d.offset else -d.offset;
    var q := now / DAY;
    assert now + days * DAY == (q + days) * DAY + now % DAY;
    SameTimeOfDay(now, days);
    assert DateForPeriod(now, d) == (q + days) * DAY + d.hour * HOUR + d.minute * MINUTE;
    assert 0 <= d.hour * HOUR + d.minute * MINUTE < DAY;
  }

  /** A date drawn for a past or a future period is strictly on its side of now, whatever the time of day. */
  lemma PeriodSide(now: int, d: Draws)
    requires InRange(d)
    ensures d.ahead ==> DateForPeriod(now, d) > now
    ensures !d.ahead ==> DateForPeriod(now, d) < now
  {
    var t := if d.ahead then now + d.offset * DAY else now - d.offset * DAY;
    assert t % DAY == now % DAY by {
      SameTimeOfDay(now, if d.ahead then d.offset else -d.offset);
    }
    assert 0 <= d.hour * HOUR + d.minute * MINUTE < DAY;
  }

  lemma SameTimeOfDay(t: int, days: int)
    ensures (t + days * DAY) % DAY == t % DAY
  {
    var q, r := t / DAY, t % DAY;
    assert t + days * DAY == (q + days) * DAY + r;
  }

  /** Must lie in the past, with its return. */
  method ReturnedDates(now: int, drawn: int, d: Draws) returns (pickup: int, planned: int, actual: int)
    requires InRange(d)
    ensures pickup == if drawn > now - (d.duration + 1) * DAY then now - d.backDays * DAY else drawn
    ensures planned == pickup + d.duration * 86_400_000_000 && actual == planned + d.returnShift * 3_600_000_000
    ensures pickup < actual < now && planned < now
  {
    pickup := drawn;
    if pickup > now - (d.duration + 1) * DAY {
      pickup := now - d.backDays * DAY;
    }
    planned := pickup + d.duration * DAY;
    actual := planned + d.returnShift * HOUR;
  }

  /** Out now, and due back in the future or overdue; an overdue planned return never needs its repair. */
  method CheckedOutDates(now: int, d: Draws) returns (pickup: int, planned: int)
    requires InRange(d)
    ensures pickup == now - d.hoursAgo * HOUR && pickup < planned
    ensures d.overdue ==> planned == now - d.overdueHours * HOUR < now
    ensures !d.overdue ==> planned == now + d.dueDays * DAY > now
  {
    pickup := now - d.hoursAgo * HOUR;
    if d.overdue {
      planned := now - d.overdueHours * HOUR;
      assert planned > pickup;
    } else {
      planned := now + d.dueDays * DAY;
    }
  }

  method CreationTime(now: int, pickup: int, d: Draws) returns (created: int)
    requires InRange(d)
    ensures created <= pickup && created <= now
    ensures var lead := d.leadDays * 86_400_000_000 + d.leadHours * 3_600_000_000;
            created == if pickup - lead <= now then pickup - lead else now - d.minutesBack * 60_000_000
  {
    created := pickup - d.leadDays * DAY - d.leadHours * HOUR;
    if created > now {
      created := now - d.minutesBack * MINUTE;
    }
  }

  /**
   For every outcome of the draws: the planned return follows the pickup, the reservation is created
   no later than now and its pickup; a returned one went out and came back before now, a checked-out
   one is out now, and a confirmed one is still ahead.
   */
  method GenerateDates(now: int, status: Status, d: Draws) returns (r: Dates)
    requires InRange(d)
    ensures r.pickup < r.planned && r.created <= r.pickup && r.created <= now
    ensures r.actual.Some? <==> status == RETURNED
    ensures status == RETURNED ==> r.pickup < r.actual.value < now && r.planned < now
    ensures status == CHECKED_OUT ==> r.pickup < now && (r.planned < now <==> d.overdue)
    ensures status == CONFIRMED ==> now < r.pickup
    ensures status == CONFIRMED ==>
              r.pickup == if d.ahead then DateForPeriod(now, d) else now + d.aheadDays * 86_400_000_000
    ensures status == CHECKED_OUT ==>
              && r.pickup == now - d.hoursAgo * 3_600_000_000
              && r.planned == if d.overdue then now - d.overdueHours * 3_600_000_000 else now + d.dueDays * 86_400_000_000
    ensures status == RETURNED ==>
              && r.pickup == (if DateForPeriod(now, d) + (d.duration + 1) * 86_400_000_000 <= now then DateForPeriod(now, d)
                              else now - d.backDays * 86_400_000_000)
              && r.actual.value == r.planned + d.returnShift * 3_600_000_000
    ensures var lead := d.leadDays * 86_400_000_000 + d.leadHours * 3_600_000_000;
            r.created == if r.pickup - lead <= now then r.pickup - lead else now - d.minutesBack * 60_000_000
    ensures status in {CANCELLED, NO_SHOW} ==> r.pickup == DateForPeriod(now, d) && r.pickup != now
    ensures status != CHECKED_OUT ==> r.planned == r.pickup + d.duration * DAY
  {
    PeriodSide(now, d);
    var pickup := DateForPeriod(now, d);
    var planned;
    var actual: Option<int> := None;
    match status {
      case RETURNED =>
        var back;
        pickup, planned, back := ReturnedDates(now, pickup, d);
        actual := Some(back);
      case CHECKED_OUT =>
        pickup, planned := CheckedOutDates(now, d);
      case CONFIRMED =>
        if pickup <= now {
          pickup := now + d.aheadDays * DAY;
        }
        planned := pickup + d.duration * DAY;
      case CANCELLED =>
        planned := pickup + d.duration * DAY;
      case NO_SHOW =>
        planned := pickup + d.duration * DAY;
    }
    var created := CreationTime(now, pickup, d);
    r := Dates(pickup, planned, actual, created);
  }
}
