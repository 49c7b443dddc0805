/**
 Average daily fleet utilisation on the executive dashboard: for each calendar day of the period, the
 number of distinct vehicles with a dispatched rental overlapping the day, as a share of the fleet.

 Times are integer milliseconds, days have a fixed length, and `zone` is the local offset from UTC.
 */
module Utilization {
  import opened Wrappers
  import opened Arithmetic

  const DAY_CAP := 366
  const DISPATCHED_STATUSES := {"CHECKED_OUT", "EXTENDED", "RETURNED", "CLOSED"}

  datatype Rental = Rental(
    status: string,
    vehicle: Option<string>,
    pickup: Option<int>,
    plannedReturn: Option<int>,
    actualReturn: Option<int>)

  /** An actual dispatch with a known vehicle and pickup; an empty vehicle id counts as none. */
  predicate Dispatched(r: Rental) {
    r.status in DISPATCHED_STATUSES && r.vehicle.Some? && r.vehicle.value != "" && r.pickup.Some?
  }

  /** The actual return, else the planned one, else the end of the period. */
  function RentalEnd(r: Rental, periodEnd: int): int {
    if r.actualReturn.Some? then r.actualReturn.value
    else if r.plannedReturn.Some? then r.plannedReturn.value
    else periodEnd
  }

  predicate OnRentAt(r: Rental, dayStart: int, periodEnd: int) {
    Dispatched(r) && r.pickup.value < dayStart + DAY_MS && RentalEnd(r, periodEnd) > dayStart
  }

  // ---- The set specification ----

  function StartOfDay(t: int, zone: int): int {
    t - (t + zone) % DAY_MS
  }

  function DayCount(first: int, periodEnd: int): nat {
    if periodEnd <= first then 0
    else
      var n := (periodEnd - first + DAY_MS - 1) / DAY_MS;
      if n < DAY_CAP then n else DAY_CAP
  }

  /** The vehicles on rent on the day that starts at `dayStart`. */
  function OnRent(rs: seq<Rental>, dayStart: int, periodEnd: int): set<string> {
    set r | r in rs && OnRentAt(r, dayStart, periodEnd) :: r.vehicle.value
  }

  /** Vehicle-days over the first `n` days. */
  function VehicleDays(rs: seq<Rental>, first: int, n: nat, periodEnd: int): nat {
    if n == 0 then 0
    else VehicleDays(rs, first, n - 1, periodEnd) + |OnRent(rs, first + (n - 1) * DAY_MS, periodEnd)|
  }

  /** Vehicle-days over fleet-days in percent, rounded once. */
  function UtilizationPercent(rs: seq<Rental>, first: int, n: nat, periodEnd: int, activeFleet: nat): nat {
    if activeFleet == 0 || n == 0 then 0
    else
      MulMonotone(activeFleet, 1, n);
      RoundDiv(100 * VehicleDays(rs, first, n, periodEnd), activeFleet * n)
  }

  // ---- The computation ----

  function Filter(rs: seq<Rental>): seq<Rental> {
    if rs == [] then []
    else Filter(rs[..|rs| - 1]) + if Dispatched(rs[|rs| - 1]) then [rs[|rs| - 1]] else []
  }

  lemma {:induction false} FilterKeepsDispatched(rs: seq<Rental>)
    ensures forall r :: r in Filter(rs) <==> r in rs && Dispatched(r)
  {
    if rs != [] {
      FilterKeepsDispatched(rs[..|rs| - 1]);
      assert rs == rs[..|rs| - 1] + [rs[|rs| - 1]];
    }
  }

  method ComputeAvgDailyUtilization(rs: seq<Rental>, periodStart: int, periodEnd: int, activeFleet: nat, zone: int)
    returns (pct: int, daysInPeriod: nat)
    ensures activeFleet == 0 ==> pct == 0 && daysInPeriod == 0
    ensures activeFleet > 0 ==>
              && daysInPeriod == DayCount(StartOfDay(periodStart, zone), periodEnd)
              && pct == UtilizationPercent(rs, StartOfDay(periodStart, zone), daysInPeriod, periodEnd, activeFleet)
  {
    if activeFleet == 0 {
      return 0, 0;
    }
    var dayStarts := DaysOfPeriod(StartOfDay(periodStart, zone), periodEnd);
    if |dayStarts| == 0 {
      return 0, 0;
    }
    var dispatched := Filter(rs);
    var totalRate := 0.0;
    ghost var total: nat := 0;
    for i := 0 to |dayStarts|
      invariant total == VehicleDays(rs, StartOfDay(periodStart, zone), i, periodEnd)
      invariant totalRate == total as real / activeFleet as real
    {
      var onRent := VehiclesOnRent(rs, dispatched, dayStarts[i], periodEnd);
      AddShares(total as real, |onRent| as real, activeFleet as real);
      totalRate := totalRate + |onRent| as real / activeFleet as real;
      total := total + |onRent|;
    }
    pct := ((totalRate / |dayStarts| as real) * 100.0 + 0.5).Floor;
    daysInPeriod := |dayStarts|;
    RoundedRate(total, activeFleet, |dayStarts|);
  }

  /** One entry per calendar day that starts before the end of the period, at most 366. */
  method DaysOfPeriod(first: int, periodEnd: int) returns (dayStarts: seq<int>)
    ensures |dayStarts| == DayCount(first, periodEnd)
    ensures forall i :: 0 <= i < |dayStarts| ==> dayStarts[i] == first + i * DAY_MS
  {
    dayStarts := [];
    var cur := first;
    while cur < periodEnd && |dayStarts| < DAY_CAP
      invariant cur == first + |dayStarts| * DAY_MS
      invariant |dayStarts| <= DayCount(first, periodEnd)
      invariant forall i :: 0 <= i < |dayStarts| ==> dayStarts[i] == first + i * DAY_MS
      decreases DAY_CAP - |dayStarts|
    {
      dayStarts := dayStarts + [cur];
      cur := cur + DAY_MS;
    }
  }

  /** The inner loop: a set, so a vehicle with two rentals that day counts once. */
  method VehiclesOnRent(ghost rs: seq<Rental>, dispatched: seq<Rental>, dayStart: int, periodEnd: int)
    returns (onRent: set<string>)
    requires dispatched == Filter(rs)
    ensures onRent == OnRent(rs, dayStart, periodEnd)
  {
    FilterKeepsDispatched(rs);
    onRent := {};
    for j := 0 to |dispatched|
      invariant onRent == OnRent(dispatched[..j], dayStart, periodEnd)
    {
      var r := dispatched[j];
      assert Dispatched(r);
      assert dispatched[..j + 1] == dispatched[..j] + [r];
      if r.pickup.value < dayStart + DAY_MS && RentalEnd(r, periodEnd) > dayStart {
        onRent := onRent + {r.vehicle.value};
      }
    }
    assert dispatched[..|dispatched|] == dispatched;
    SameRentalsSameDay(dispatched, rs, dayStart, periodEnd);
  }

  lemma SameRentalsSameDay(a: seq<Rental>, b: seq<Rental>, dayStart: int, periodEnd: int)
    requires forall r :: Dispatched(r) ==> (r in a <==> r in b)
    ensures OnRent(a, dayStart, periodEnd) == OnRent(b, dayStart, periodEnd)
  {
  }

  lemma AddShares(a: real, b: real, f: real)
    requires f > 0.0
    ensures a / f + b / f == (a + b) / f
  {
  }

  /** Accumulating per-day shares and rounding the average is the one rounded fraction. */
  lemma RoundedRate(total: nat, fleet: nat, days: nat)
    requires fleet > 0 && days > 0
    ensures fleet * days > 0
    ensures ((total as real / fleet as real / days as real) * 100.0 + 0.5).Floor
            == RoundDiv(100 * total, fleet * days)
  {
    MulMonotone(fleet, 1, days);
    var d := fleet * days;
    var x := (total as real / fleet as real / days as real) * 100.0 + 0.5;
    assert fleet as real * days as real == d as real;
    AverageTimesDays(total as real, fleet as real, days as real);
    assert x * (2 * d) as real == (200 * total + d) as real;
    FloorOfQuotient(x, 200 * total + d, 2 * d);
  }

  lemma AverageTimesDays(t: real, f: real, n: real)
    requires f > 0.0 && n > 0.0
    ensures (t / f / n) * (f * n) == t
  {
    var r := t / f;
    assert r * f == t;
    assert (r / n) * n == r;
    assert (r / n) * (f * n) == ((r / n) * n) * f;
  }

  lemma FloorOfQuotient(x: real, a: nat, b: nat)
    requires b > 0 && x * b as real == a as real
    ensures x.Floor == a / b
  {
    var q := a / b;
    assert q * b <= a < (q + 1) * b;
    CancelAtMost(q, b, x, a);
    CancelBelow(q + 1, b, x, a);
  }

  lemma CancelAtMost(q: nat, b: nat, x: real, a: nat)
    requires b > 0 && x * b as real == a as real && q * b <= a
    ensures q as real <= x
  {
    assert q as real * b as real == (q * b) as real;
    RealOrder(x, q as real, b as real);
  }

  lemma CancelBelow(q: nat, b: nat, x: real, a: nat)
    requires b > 0 && x * b as real == a as real && a < q * b
    ensures x < q as real
  {
    assert q as real * b as real == (q * b) as real;
    RealOrder(x, q as real, b as real);
  }

  lemma RealOrder(x: real, y: real, d: real)
    requires d > 0.0
    ensures x < y <==> x * d < y * d
  {
    if x < y {
      assert (y - x) * d > 0.0;
    } else {
      assert (x - y) * d >= 0.0;
    }
  }

  // ---- What a day and a rental are ----

  /** The local midnight at or before an instant. */
  lemma StartOfDayMeaning(t: int, zone: int)
    ensures StartOfDay(t, zone) <= t < StartOfDay(t, zone) + 86_400_000
    ensures (StartOfDay(t, zone) + zone) % 86_400_000 == 0
  {
    var x := t + zone;
    assert StartOfDay(t, zone) + zone == (x / DAY_MS) * DAY_MS;
  }

  /** The days are those that start before the end of the period, up to 366 of them. */
  lemma DayCountMeaning(first: int, periodEnd: int, i: nat)
    ensures i < DayCount(first, periodEnd) <==> i < 366 && first + i * 86_400_000 < periodEnd
  {
  }

  /** Where a rental ends, given the end of the period. */
  predicate EndsAt(r: Rental, periodEnd: int, end: int) {
    match r.actualReturn
    case Some(t) => end == t
    case None => match r.plannedReturn
                 case Some(t) => end == t
                 case None => end == periodEnd
  }

  /** The rental counts for the vehicle on the day that starts at `d`. */
  ghost predicate Counts(r: Rental, v: string, d: int, periodEnd: int) {
    && (r.status == "CHECKED_OUT" || r.status == "EXTENDED" || r.status == "RETURNED" || r.status == "CLOSED")
    && v != "" && r.vehicle == Some(v)
    && exists out, end :: r.pickup == Some(out) && EndsAt(r, periodEnd, end) && out < d + 86_400_000 && end > d
  }

  /** A vehicle is on rent on a day if and only if some rental of it counts. */
  lemma OnRentExactly(rs: seq<Rental>, v: string, d: int, periodEnd: int)
    ensures v in OnRent(rs, d, periodEnd) <==> exists r :: r in rs && Counts(r, v, d, periodEnd)
  {
    if v in OnRent(rs, d, periodEnd) {
      var r :| r in rs && OnRentAt(r, d, periodEnd) && r.vehicle.value == v;
      assert EndsAt(r, periodEnd, RentalEnd(r, periodEnd));
      assert Counts(r, v, d, periodEnd);
    }
    if r :| r in rs && Counts(r, v, d, periodEnd) {
      assert OnRentAt(r, d, periodEnd);
    }
  }

  predicate Spans(from: int, x: int, to: int) {
    from <= x < to
  }

  /** For a rental that ends after its pickup, counting for a day is sharing an instant with it. */
  lemma CountsExactlyWhenShared(r: Rental, v: string, d: int, periodEnd: int, out: int, end: int)
    requires r.status in {"CHECKED_OUT", "EXTENDED", "RETURNED", "CLOSED"} && v != "" && r.vehicle == Some(v)
    requires r.pickup == Some(out) && EndsAt(r, periodEnd, end) && out < end
    ensures Counts(r, v, d, periodEnd) <==> exists x :: Spans(out, x, end) && Spans(d, x, d + 86_400_000)
  {
    if out < d + 86_400_000 && end > d {
      var x := if out >= d then out else d;
      assert Spans(out, x, end) && Spans(d, x, d + 86_400_000);
    }
    if Counts(r, v, d, periodEnd) {
      var o, e :| r.pickup == Some(o) && EndsAt(r, periodEnd, e) && o < d + 86_400_000 && e > d;
      assert o == out && e == end;
    }
  }

  /** The percentage is the nearest integer to vehicle-days over fleet-days. */
  lemma PercentIsNearest(rs: seq<Rental>, first: int, n: nat, periodEnd: int, fleet: nat)
    requires fleet > 0 && n > 0
    ensures var p := UtilizationPercent(rs, first, n, periodEnd, fleet);
            (2 * p - 1) * (fleet * n) <= 200 * VehicleDays(rs, first, n, periodEnd) < (2 * p + 1) * (fleet * n)
    ensures UtilizationPercent(rs, first, 0, periodEnd, fleet) == UtilizationPercent(rs, first, n, periodEnd, 0) == 0
  {
    MulMonotone(fleet, 1, n);
    RoundDivNearest(100 * VehicleDays(rs, first, n, periodEnd), fleet * n);
  }

  // ---- What the number means ----

  /** Only which rentals there are matters: not their order, and not whether some are listed twice. */
  lemma {:induction false} OrderAndDuplicatesIrrelevant(a: seq<Rental>, b: seq<Rental>, first: int, n: nat, periodEnd: int)
    requires forall r :: r in a <==> r in b
    ensures VehicleDays(a, first, n, periodEnd) == VehicleDays(b, first, n, periodEnd)
  {
    if n > 0 {
      OrderAndDuplicatesIrrelevant(a, b, first, n - 1, periodEnd);
      SameRentalsSameDay(a, b, first + (n - 1) * DAY_MS, periodEnd);
    }
  }

  lemma {:induction false} MoreRentalsMoreDays(a: seq<Rental>, b: seq<Rental>, first: int, n: nat, periodEnd: int)
    requires forall r :: r in a ==> r in b
    ensures VehicleDays(a, first, n, periodEnd) <= VehicleDays(b, first, n, periodEnd)
  {
    if n > 0 {
      MoreRentalsMoreDays(a, b, first, n - 1, periodEnd);
      var d := first + (n - 1) * DAY_MS;
      SubsetCard(OnRent(a, d, periodEnd), OnRent(b, d, periodEnd));
    }
  }

  /** Adding rentals never lowers the percentage. */
  lemma PercentNeverFalls(a: seq<Rental>, b: seq<Rental>, first: int, n: nat, periodEnd: int, fleet: nat)
    requires forall r :: r in a ==> r in b
    ensures UtilizationPercent(a, first, n, periodEnd, fleet) <= UtilizationPercent(b, first, n, periodEnd, fleet)
  {
    MoreRentalsMoreDays(a, b, first, n, periodEnd);
    if fleet > 0 && n > 0 {
      MulMonotone(fleet, 1, n);
      RoundDivMonotone(100 * VehicleDays(a, first, n, periodEnd), 100 * VehicleDays(b, first, n, periodEnd), fleet * n);
    }
  }

  /** Every dispatched vehicle is one of the active fleet. */
  ghost predicate FleetCovers(rs: seq<Rental>, fleet: set<string>) {
    forall r :: r in rs && Dispatched(r) ==> r.vehicle.value in fleet
  }

  lemma {:induction false} VehicleDaysBound(rs: seq<Rental>, first: int, n: nat, periodEnd: int, fleet: set<string>)
    requires FleetCovers(rs, fleet)
    ensures VehicleDays(rs, first, n, periodEnd) <= |fleet| * n
  {
    if n > 0 {
      VehicleDaysBound(rs, first, n - 1, periodEnd, fleet);
      SubsetCard(OnRent(rs, first + (n - 1) * DAY_MS, periodEnd), fleet);
      assert |fleet| * (n - 1) + |fleet| == |fleet| * n;
    }
  }

  /** If every dispatched vehicle belongs to the active fleet, the percentage is at most 100. */
  lemma PercentWithinHundred(rs: seq<Rental>, first: int, n: nat, periodEnd: int, fleet: set<string>)
    requires FleetCovers(rs, fleet)
    ensures UtilizationPercent(rs, first, n, periodEnd, |fleet|) <= 100
  {
    VehicleDaysBound(rs, first, n, periodEnd, fleet);
    if |fleet| > 0 && n > 0 {
      MulMonotone(|fleet|, 1, n);
      RoundDivAtMost(100 * VehicleDays(rs, first, n, periodEnd), |fleet| * n, 100);
    }
  }

  lemma FullPercent(k: nat, fleet: nat, n: nat)
    requires fleet > 0 && n > 0
    ensures fleet * n > 0 && RoundDiv(100 * (k * n), fleet * n) == RoundDiv(100 * k, fleet)
  {
    MulMonotone(fleet, 1, n);
    DivScale(2 * (100 * k) + fleet, 2 * fleet, n);
    assert (2 * (100 * k) + fleet) * n == 2 * (100 * (k * n)) + fleet * n;
    assert (2 * fleet) * n == 2 * (fleet * n);
  }

  /** Each vehicle rented from before the first day to the end of the last. */
  ghost predicate RentedThroughout(rs: seq<Rental>, vs: set<string>, first: int, n: nat) {
    && FleetCovers(rs, vs)
    && forall v :: v in vs ==> Rental("CLOSED", Some(v), Some(first), None, Some(first + n * DAY_MS)) in rs
  }

  lemma {:induction false} RentThroughout(vs: set<string>, first: int, n: nat) returns (rs: seq<Rental>)
    ensures RentedThroughout(rs, vs, first, n)
  {
    if vs == {} {
      rs := [];
    } else {
      var v :| v in vs;
      var rest := RentThroughout(vs - {v}, first, n);
      rs := rest + [Rental("CLOSED", Some(v), Some(first), None, Some(first + n * DAY_MS))];
    }
  }

  lemma {:induction false} ThroughoutFillsDays(rs: seq<Rental>, vs: set<string>, first: int, n: nat, days: nat, periodEnd: int)
    requires RentedThroughout(rs, vs, first, n) && "" !in vs && days <= n
    ensures VehicleDays(rs, first, days, periodEnd) == |vs| * days
  {
    if days > 0 {
      ThroughoutFillsDays(rs, vs, first, n, days - 1, periodEnd);
      var dayStart := first + (days - 1) * DAY_MS;
      forall v | v in vs ensures v in OnRent(rs, dayStart, periodEnd) {
        var r := Rental("CLOSED", Some(v), Some(first), None, Some(first + n * DAY_MS));
        assert r in rs && OnRentAt(r, dayStart, periodEnd);
      }
      assert OnRent(rs, dayStart, periodEnd) == vs;
      assert |vs| * (days - 1) + |vs| == |vs| * days;
    }
  }

  /** The most that rentals of the vehicles `vs` can show, whatever the rentals. */
  function MostPercent(vs: set<string>, fleet: nat): nat
    requires fleet > 0
  {
    RoundDiv(100 * |vs|, fleet)
  }

  lemma MostPercentBounds(rs: seq<Rental>, vs: set<string>, first: int, n: nat, periodEnd: int, fleet: nat)
    requires fleet > 0 && n > 0 && FleetCovers(rs, vs)
    ensures UtilizationPercent(rs, first, n, periodEnd, fleet) <= MostPercent(vs, fleet)
  {
    VehicleDaysBound(rs, first, n, periodEnd, vs);
    FullPercent(|vs|, fleet, n);
    RoundDivMonotone(100 * VehicleDays(rs, first, n, periodEnd), 100 * (|vs| * n), fleet * n);
  }

  lemma MostPercentReached(vs: set<string>, first: int, n: nat, periodEnd: int, fleet: nat) returns (rs: seq<Rental>)
    requires fleet > 0 && n > 0 && "" !in vs
    ensures FleetCovers(rs, vs)
    ensures UtilizationPercent(rs, first, n, periodEnd, fleet) == MostPercent(vs, fleet)
  {
    rs := RentThroughout(vs, first, n);
    ThroughoutFillsDays(rs, vs, first, n, n, periodEnd);
    FullPercent(|vs|, fleet, n);
  }

  /**
   When the percentage can pass 100 depends on nothing but how many distinct vehicles were dispatched: rentals
   of the vehicles `vs` show at most 100, whatever they are, if and only if the count of `vs` over the
   active fleet's does not round to more than 100 percent.
   */
  lemma PercentWithinHundredExactly(vs: set<string>, first: int, n: nat, periodEnd: int, fleet: nat)
    requires fleet > 0 && n > 0 && "" !in vs
    ensures (forall rs :: FleetCovers(rs, vs) ==> UtilizationPercent(rs, first, n, periodEnd, fleet) <= 100)
            <==> RoundDiv(100 * |vs|, fleet) <= 100
  {
    if MostPercent(vs, fleet) <= 100 {
      forall rs | FleetCovers(rs, vs) ensures UtilizationPercent(rs, first, n, periodEnd, fleet) <= 100 {
        MostPercentBounds(rs, vs, first, n, periodEnd, fleet);
      }
    } else {
      var rs := MostPercentReached(vs, first, n, periodEnd, fleet);
    }
  }

  /** The active fleet leaves out disposed vehicles but their rentals still count, so the number can pass 100. */
  lemma DisposedVehiclesPassHundred(first: int)
    ensures var rent := (v: string) => Rental("CLOSED", Some(v), Some(first), Some(first + DAY_MS), None);
            UtilizationPercent([rent("active"), rent("disposed")], first, 1, first + DAY_MS, 1) == 200
  {
    var r0 := Rental("CLOSED", Some("active"), Some(first), Some(first + DAY_MS), None);
    var r1 := Rental("CLOSED", Some("disposed"), Some(first), Some(first + DAY_MS), None);
    var day := OnRent([r0, r1], first, first + DAY_MS);
    assert OnRentAt(r0, first, first + DAY_MS) && OnRentAt(r1, first, first + DAY_MS);
    assert r0 in [r0, r1] && r1 in [r0, r1];
    assert day == {"active", "disposed"};
    assert VehicleDays([r0, r1], first, 0, first + DAY_MS) == 0;
  }

  // ---- Counting by day is counting by vehicle ----

  /** How many of the first `n` days the vehicle is on rent. */
  function DaysCovered(rs: seq<Rental>, v: string, first: int, n: nat, periodEnd: int): nat {
    if n == 0 then 0
    else DaysCovered(rs, v, first, n - 1, periodEnd)
         + if v in OnRent(rs, first + (n - 1) * DAY_MS, periodEnd) then 1 else 0
  }

  function CoveredByAll(rs: seq<Rental>, vs: seq<string>, first: int, n: nat, periodEnd: int): nat {
    if vs == [] then 0
    else CoveredByAll(rs, vs[..|vs| - 1], first, n, periodEnd) + DaysCovered(rs, vs[|vs| - 1], first, n, periodEnd)
  }

  ghost predicate Distinct(vs: seq<string>) {
    forall i, j :: 0 <= i < j < |vs| ==> vs[i] != vs[j]
  }

  function CountIn(vs: seq<string>, s: set<string>): nat {
    if vs == [] then 0 else CountIn(vs[..|vs| - 1], s) + if vs[|vs| - 1] in s then 1 else 0
  }

  lemma {:induction false} CountDistinct(vs: seq<string>, s: set<string>)
    requires Distinct(vs) && forall v :: v in s ==> v in vs
    ensures CountIn(vs, s) == |s|
  {
    if vs != [] {
      var init, last := vs[..|vs| - 1], vs[|vs| - 1];
      assert last !in init;
      forall v | v in s - {last} ensures v in init {
        var i :| 0 <= i < |vs| && vs[i] == v;
        assert init[i] == v;
      }
      CountDistinct(init, s - {last});
      CountIgnores(init, s, last);
    }
  }

  lemma {:induction false} CountIgnores(vs: seq<string>, s: set<string>, x: string)
    requires x !in vs
    ensures CountIn(vs, s - {x}) == CountIn(vs, s)
  {
    if vs != [] {
      CountIgnores(vs[..|vs| - 1], s, x);
    }
  }

  lemma {:induction false} OneMoreDay(rs: seq<Rental>, vs: seq<string>, first: int, n: nat, periodEnd: int)
    requires n > 0
    ensures CoveredByAll(rs, vs, first, n, periodEnd)
            == CoveredByAll(rs, vs, first, n - 1, periodEnd) + CountIn(vs, OnRent(rs, first + (n - 1) * DAY_MS, periodEnd))
  {
    if vs != [] {
      OneMoreDay(rs, vs[..|vs| - 1], first, n, periodEnd);
    }
  }

  lemma {:induction false} NoDays(rs: seq<Rental>, vs: seq<string>, first: int, periodEnd: int)
    ensures CoveredByAll(rs, vs, first, 0, periodEnd) == 0
  {
    if vs != [] {
      NoDays(rs, vs[..|vs| - 1], first, periodEnd);
    }
  }

  /** Summing vehicles over days gives the same as summing covered days over vehicles. */
  lemma {:induction false} DaysEqualVehicles(rs: seq<Rental>, vs: seq<string>, first: int, n: nat, periodEnd: int)
    requires Distinct(vs) && forall r :: r in rs && Dispatched(r) ==> r.vehicle.value in vs
    ensures VehicleDays(rs, first, n, periodEnd) == CoveredByAll(rs, vs, first, n, periodEnd)
  {
    if n == 0 {
      NoDays(rs, vs, first, periodEnd);
    } else {
      DaysEqualVehicles(rs, vs, first, n - 1, periodEnd);
      OneMoreDay(rs, vs, first, n, periodEnd);
      CountDistinct(vs, OnRent(rs, first + (n - 1) * DAY_MS, periodEnd));
    }
  }
}
