/**
 The fleet calendar page: the utilisation bar over the served reservation blocks, and the grouping
 of vehicles by home location. Times are integer milliseconds; a fraction of days is kept as
 milliseconds and rounded once at the end.
 */
module FleetCalendar {
  import opened Arithmetic
  import opened IntervalMeasure
  import Repository

  datatype Event = Event(blockType: string, span: Span)

  datatype Vehicle = Vehicle(id: string, home: string, events: seq<Event>)

  function Min(a: nat, b: nat): nat {
    if a <= b then a else b
  }

  /** The filter: the spans of the reservation events. */
  function Reservations(events: seq<Event>): seq<Span> {
    if events == [] then []
    else Reservations(events[..|events| - 1]) +
         if events[|events| - 1].blockType == "RESERVATION" then [events[|events| - 1].span] else []
  }

  /** The inner reduce: whole durations, each capped at the window's length. */
  function CappedSum(spans: seq<Span>, window: nat): nat {
    if spans == [] then 0
    else CappedSum(spans[..|spans| - 1], window) + Min(Len(spans[|spans| - 1]), window)
  }

  function BookedTime(v: Vehicle, window: nat): nat {
    CappedSum(Reservations(v.events), window)
  }

  function FleetBooked(vehicles: seq<Vehicle>, window: nat): nat {
    if vehicles == [] then 0
    else FleetBooked(vehicles[..|vehicles| - 1], window) + BookedTime(vehicles[|vehicles| - 1], window)
  }

  /** The bar's percentage for a window of `days` days. */
  function BarPercent(vehicles: seq<Vehicle>, days: nat): nat
    requires days > 0
  {
    if vehicles == [] then 0
    else RoundDiv(100 * FleetBooked(vehicles, days * DAY_MS), |vehicles| * (days * DAY_MS))
  }

  /** One more event adds its whole length up to the window's if it is a reservation, and nothing otherwise. */
  lemma EventAddsToBar(v: Vehicle, e: Event, window: nat)
    ensures BookedTime(v.(events := v.events + [e]), window) == BookedTime(v, window) +
            if e.blockType != "RESERVATION" || e.span.to <= e.span.from then 0
            else if e.span.to - e.span.from <= window then e.span.to - e.span.from
            else window
    ensures BookedTime(v.(events := []), window) == 0
  {
    ReservationsSnoc(v.events, e);
    if e.blockType == "RESERVATION" {
      CappedSumSnoc(Reservations(v.events), e.span, window);
    } else {
      assert Reservations(v.events) + [] == Reservations(v.events);
    }
  }

  /** The bar is the fleet's booked time over the fleet's time in percent, rounded to the nearest integer. */
  lemma BarIsNearestPercent(vehicles: seq<Vehicle>, v: Vehicle, days: nat)
    requires days > 0
    ensures var n, more := (|vehicles| + 1) * (days * 86_400_000), vehicles + [v];
            && FleetBooked(more, days * 86_400_000) == FleetBooked(vehicles, days * 86_400_000) + BookedTime(v, days * 86_400_000)
            && (2 * BarPercent(more, days) - 1) * n <= 200 * FleetBooked(more, days * 86_400_000) < (2 * BarPercent(more, days) + 1) * n
    ensures BarPercent([], days) == 0 && FleetBooked([], days * 86_400_000) == 0
  {
    var more := vehicles + [v];
    assert more[..|more| - 1] == vehicles;
    MulMonotone(|more|, 1, days * DAY_MS);
    RoundDivNearest(100 * FleetBooked(more, days * DAY_MS), |more| * (days * DAY_MS));
  }

  // ---- Bounds ----

  /** Non-empty and overlapping the window. */
  predicate Meets(s: Span, w: Span) {
    s.from < s.to && s.from < w.to && w.from < s.to
  }

  ghost predicate AllMeet(spans: seq<Span>, w: Span) {
    forall s :: s in spans ==> Meets(s, w)
  }

  /** No reservation sticks out of the window on one side only or on both without filling it. */
  ghost predicate AllWithinOrCovering(spans: seq<Span>, w: Span) {
    forall s :: s in spans ==> Within(s, w) || Within(w, s)
  }

  function Clip(s: Span, w: Span): Span {
    Span(if s.from < w.from then w.from else s.from, if s.to > w.to then w.to else s.to)
  }

  function Clips(spans: seq<Span>, w: Span): seq<Span> {
    seq(|spans|, i requires 0 <= i < |spans| => Clip(spans[i], w))
  }

  /** A clip is what the reservation and the window share. */
  lemma ClipIsIntersection(s: Span, w: Span, x: int)
    ensures Contains(Clip(s, w), x) <==> s.from <= x < s.to && w.from <= x < w.to
  {
  }

  lemma ClipsFit(spans: seq<Span>, w: Span)
    requires PairwiseApart(spans)
    ensures TotalLen(Clips(spans, w)) <= Len(w)
  {
    forall i, j | 0 <= i < j < |spans| ensures Apart(Clips(spans, w)[i], Clips(spans, w)[j]) {
      assert Apart(spans[i], spans[j]);
    }
    DisjointSpansFit(Clips(spans, w), w);
  }

  lemma CappedExact(s: Span, w: Span)
    requires w.from < w.to && Meets(s, w)
    ensures Min(Len(s), Len(w)) >= Len(Clip(s, w))
    ensures Min(Len(s), Len(w)) == Len(Clip(s, w)) <==> Within(s, w) || Within(w, s)
  {
  }

  /**
   The capped whole durations are never less than the time actually inside the window, and equal to it
   exactly when every reservation lies inside the window or covers it.
   */
  lemma {:induction false} CappedSumExact(spans: seq<Span>, w: Span)
    requires w.from < w.to && AllMeet(spans, w)
    ensures CappedSum(spans, Len(w)) >= TotalLen(Clips(spans, w))
    ensures CappedSum(spans, Len(w)) == TotalLen(Clips(spans, w)) <==> AllWithinOrCovering(spans, w)
  {
    if spans != [] {
      var init, last := spans[..|spans| - 1], spans[|spans| - 1];
      CappedSumExact(init, w);
      assert Clips(spans, w)[..|spans| - 1] == Clips(init, w);
      assert spans == init + [last];
      CappedExact(last, w);
    }
  }

  /** What the calendar endpoint serves: reservations that overlap the window and not each other. */
  ghost predicate VehicleServed(v: Vehicle, w: Span) {
    PairwiseApart(Reservations(v.events)) && AllMeet(Reservations(v.events), w)
  }

  /** A piece of `s` as long as the capped duration, inside the window widened by its own length on both sides. */
  function Trim(s: Span, w: Span): Span {
    var cap := w.to - w.from;
    if s.to - s.from <= cap then s
    else if s.from >= w.from - cap then Span(s.from, s.from + cap)
    else
      var end := if s.to <= w.to then s.to else w.to;
      Span(end - cap, end)
  }

  lemma TrimFits(s: Span, w: Span)
    requires w.from < w.to && Meets(s, w)
    ensures Within(Trim(s, w), s)
    ensures Within(Trim(s, w), Span(w.from - Len(w), w.to + Len(w)))
    ensures Len(Trim(s, w)) == Min(Len(s), Len(w))
  {
  }

  function Trims(spans: seq<Span>, w: Span): seq<Span> {
    seq(|spans|, i requires 0 <= i < |spans| => Trim(spans[i], w))
  }

  lemma {:induction false} TrimsTotal(spans: seq<Span>, w: Span)
    requires w.from < w.to && AllMeet(spans, w)
    ensures TotalLen(Trims(spans, w)) == CappedSum(spans, Len(w))
  {
    if spans != [] {
      TrimsTotal(spans[..|spans| - 1], w);
      TrimFits(spans[|spans| - 1], w);
      assert Trims(spans, w)[..|spans| - 1] == Trims(spans[..|spans| - 1], w);
    }
  }

  lemma TrimsApart(spans: seq<Span>, w: Span)
    requires w.from < w.to && PairwiseApart(spans) && AllMeet(spans, w)
    ensures PairwiseApart(Trims(spans, w))
  {
    forall i, j | 0 <= i < j < |spans| ensures Apart(Trims(spans, w)[i], Trims(spans, w)[j]) {
      TrimFits(spans[i], w);
      TrimFits(spans[j], w);
      assert Apart(spans[i], spans[j]);
    }
  }

  /**
   The bar counts whole durations, so it overstates; still, disjoint reservations that meet the window
   count for at most three windows, and for at most one when each lies inside the window or covers it.
   */
  lemma BookedWindows(v: Vehicle, w: Span)
    requires w.from < w.to && VehicleServed(v, w)
    ensures BookedTime(v, Len(w)) <= 3 * Len(w)
    ensures AllWithinOrCovering(Reservations(v.events), w) ==> BookedTime(v, Len(w)) <= Len(w)
  {
    var spans := Reservations(v.events);
    TrimsTotal(spans, w);
    TrimsApart(spans, w);
    var wide := Span(w.from - Len(w), w.to + Len(w));
    forall i | 0 <= i < |spans| ensures Within(Trims(spans, w)[i], wide) {
      TrimFits(spans[i], w);
    }
    DisjointSpansFit(Trims(spans, w), wide);
    CappedSumExact(spans, w);
    ClipsFit(spans, w);
  }

  /** How far a reservation sticks out of the window, on both sides together. */
  function Overhang(s: Span, w: Span): nat {
    (if s.from < w.from then w.from - s.from else 0) + (if s.to > w.to then s.to - w.to else 0)
  }

  /** How much of the window a reservation leaves free. */
  function Uncovered(s: Span, w: Span): nat {
    Len(w) - Len(Clip(s, w))
  }

  /** What the bar counts of a reservation beyond its time in the window. */
  function Excess(s: Span, w: Span): nat {
    Min(Overhang(s, w), Uncovered(s, w))
  }

  function TotalExcess(spans: seq<Span>, w: Span): nat {
    if spans == [] then 0 else TotalExcess(spans[..|spans| - 1], w) + Excess(spans[|spans| - 1], w)
  }

  lemma CappedExcess(s: Span, w: Span)
    requires w.from < w.to && Meets(s, w)
    ensures Min(Len(s), Len(w)) == Len(Clip(s, w)) + Excess(s, w)
  {
  }

  lemma {:induction false} CappedSumExcess(spans: seq<Span>, w: Span)
    requires w.from < w.to && AllMeet(spans, w)
    ensures CappedSum(spans, Len(w)) == TotalLen(Clips(spans, w)) + TotalExcess(spans, w)
  {
    if spans != [] {
      var init, last := spans[..|spans| - 1], spans[|spans| - 1];
      CappedSumExcess(init, w);
      assert Clips(spans, w)[..|spans| - 1] == Clips(init, w);
      assert last in spans;
      CappedExcess(last, w);
    }
  }

  /** The time the fleet's reservations really spend in the window. */
  function FleetClipped(vehicles: seq<Vehicle>, w: Span): nat {
    if vehicles == [] then 0
    else FleetClipped(vehicles[..|vehicles| - 1], w)
         + TotalLen(Clips(Reservations(vehicles[|vehicles| - 1].events), w))
  }

  function FleetExcess(vehicles: seq<Vehicle>, w: Span): nat {
    if vehicles == [] then 0
    else FleetExcess(vehicles[..|vehicles| - 1], w) + TotalExcess(Reservations(vehicles[|vehicles| - 1].events), w)
  }

  ghost predicate NothingStraddles(vehicles: seq<Vehicle>, w: Span) {
    forall v :: v in vehicles ==> AllWithinOrCovering(Reservations(v.events), w)
  }

  /**
   The bar's numerator is the fleet's time in the window, plus each reservation's overhang as far as the
   reservation leaves the window free; there is no such excess if and only if no reservation straddles an
   edge of the window without covering it.
   */
  lemma {:induction false} FleetBookedExact(vehicles: seq<Vehicle>, w: Span)
    requires w.from < w.to && forall v :: v in vehicles ==> VehicleServed(v, w)
    ensures FleetBooked(vehicles, Len(w)) == FleetClipped(vehicles, w) + FleetExcess(vehicles, w)
    ensures FleetExcess(vehicles, w) == 0 <==> NothingStraddles(vehicles, w)
  {
    if vehicles != [] {
      var init, last := vehicles[..|vehicles| - 1], vehicles[|vehicles| - 1];
      FleetBookedExact(init, w);
      assert last in vehicles;
      CappedSumExact(Reservations(last.events), w);
      CappedSumExcess(Reservations(last.events), w);
      assert vehicles == init + [last];
    }
  }

  lemma FleetWithinHundredExactly(vehicles: seq<Vehicle>, w: Span)
    requires w.from < w.to && vehicles != [] && forall v :: v in vehicles ==> VehicleServed(v, w)
    ensures |vehicles| * Len(w) > 0
    ensures RoundDiv(100 * FleetBooked(vehicles, Len(w)), |vehicles| * Len(w)) <= 100 <==>
              200 * (FleetClipped(vehicles, w) + FleetExcess(vehicles, w)) < 201 * (|vehicles| * Len(w))
  {
    FleetBookedExact(vehicles, w);
    PercentExactly(FleetBooked(vehicles, Len(w)), |vehicles|, Len(w));
  }

  /** When the bar shows at most 100: the time in the window and the excess together stay under 100.5 percent. */
  lemma BarWithinHundredExactly(vehicles: seq<Vehicle>, days: nat, w: Span)
    requires days > 0 && vehicles != [] && w.to == w.from + days * DAY_MS
    requires forall v :: v in vehicles ==> VehicleServed(v, w)
    ensures BarPercent(vehicles, days) <= 100 <==>
              200 * (FleetClipped(vehicles, w) + FleetExcess(vehicles, w)) < 201 * (|vehicles| * Len(w))
  {
    FleetWithinHundredExactly(vehicles, w);
    assert Len(w) == days * DAY_MS;
  }

  lemma PercentExactly(booked: nat, n: nat, window: nat)
    requires n > 0 && window > 0
    ensures n * window > 0
    ensures RoundDiv(100 * booked, n * window) <= 100 <==> 200 * booked < 201 * (n * window)
  {
    MulMonotone(n, 1, window);
    RoundDivAtMostExactly(100 * booked, n * window, 100);
  }

  lemma {:induction false} FleetBookedBound(vehicles: seq<Vehicle>, window: nat, bound: nat)
    requires forall v :: v in vehicles ==> BookedTime(v, window) <= bound
    ensures FleetBooked(vehicles, window) <= |vehicles| * bound
  {
    if vehicles != [] {
      FleetBookedBound(vehicles[..|vehicles| - 1], window, bound);
      assert (|vehicles| - 1) * bound + bound == |vehicles| * bound;
    }
  }

  lemma PercentBound(booked: nat, n: nat, window: nat, k: nat)
    requires n > 0 && window > 0 && booked <= n * (k * window)
    ensures n * window > 0 && RoundDiv(100 * booked, n * window) <= 100 * k
  {
    MulMonotone(n, 1, window);
    assert n * (k * window) == k * (n * window);
    assert 100 * (k * (n * window)) == (100 * k) * (n * window);
    RoundDivAtMost(100 * booked, n * window, 100 * k);
  }

  /** The bar shows at most 300 percent, and at most 100 when no reservation straddles an edge of the window. */
  lemma BarPercentBounded(vehicles: seq<Vehicle>, days: nat, from: int)
    requires days > 0
    requires forall v :: v in vehicles ==> VehicleServed(v, Span(from, from + days * DAY_MS))
    ensures BarPercent(vehicles, days) <= 300
    ensures NothingStraddles(vehicles, Span(from, from + days * DAY_MS)) ==> BarPercent(vehicles, days) <= 100
  {
    var window := days * DAY_MS;
    var w := Span(from, from + window);
    if vehicles != [] {
      forall v | v in vehicles
        ensures BookedTime(v, window) <= 3 * window
        ensures AllWithinOrCovering(Reservations(v.events), w) ==> BookedTime(v, window) <= 1 * window
      {
        BookedWindows(v, w);
      }
      FleetBookedBound(vehicles, window, 3 * window);
      PercentBound(FleetBooked(vehicles, window), |vehicles|, window, 3);
      if NothingStraddles(vehicles, w) {
        FleetBookedBound(vehicles, window, 1 * window);
        PercentBound(FleetBooked(vehicles, window), |vehicles|, window, 1);
      }
    }
  }

  /** The endpoint serves what meets the window up to the last second of its last day. */
  function ServedWindow(from: int, days: nat): Span {
    Span(from, from + days * DAY_MS - 1000)
  }

  /** What the endpoint serves also meets the window the bar divides by, so the bounds above apply to it. */
  lemma ServedMeetsWindow(v: Vehicle, days: nat, from: int)
    requires days > 0 && VehicleServed(v, ServedWindow(from, days))
    ensures VehicleServed(v, Span(from, from + days * DAY_MS))
  {
  }

  /**
   Three disjoint reservations that the endpoint serves for a window of `days` days: the outer two meet the
   served window by one millisecond each.
   */
  function FullBar(days: nat): (s: seq<Span>)
    requires days > 0
    ensures |s| == 3
  {
    var w := days * DAY_MS;
    [Span(1 - w, 1), Span(1, w - 1001), Span(w - 1001, 2 * w - 1001)]
  }

  function ReservedVehicle(s0: Span, s1: Span, s2: Span): Vehicle {
    Vehicle("v", "home", [Event("RESERVATION", s0), Event("RESERVATION", s1), Event("RESERVATION", s2)])
  }

  /** The bound is met: for either view, such a vehicle alone fills the bar to 300 percent. */
  lemma BarReachesThreeHundred(days: nat)
    requires days > 0
    ensures var s := FullBar(days);
            var v := ReservedVehicle(s[0], s[1], s[2]);
            VehicleServed(v, ServedWindow(0, days)) && BarPercent([v], days) == 300
  {
    var s, w := FullBar(days), days * DAY_MS;
    ThreeReservations(s[0], s[1], s[2], w);
    OneVehicleFleet(ReservedVehicle(s[0], s[1], s[2]), w);
    FullPercent(w);
  }

  lemma ThreeReservations(s0: Span, s1: Span, s2: Span, window: nat)
    ensures && Reservations(ReservedVehicle(s0, s1, s2).events) == [s0, s1, s2]
            && CappedSum([s0, s1, s2], window) == Min(Len(s0), window) + Min(Len(s1), window) + Min(Len(s2), window)
  {
    var e0, e1, e2 := Event("RESERVATION", s0), Event("RESERVATION", s1), Event("RESERVATION", s2);
    ReservationsSnoc([], e0);
    ReservationsSnoc([e0], e1);
    ReservationsSnoc([e0, e1], e2);
    assert [] + [e0] == [e0] && [e0] + [e1] == [e0, e1] && [e0, e1] + [e2] == [e0, e1, e2];
    CappedSumSnoc([], s0, window);
    CappedSumSnoc([s0], s1, window);
    CappedSumSnoc([s0, s1], s2, window);
    assert [] + [s0] == [s0] && [s0] + [s1] == [s0, s1] && [s0, s1] + [s2] == [s0, s1, s2];
  }

  lemma FullPercent(w: nat)
    requires w >= DAY_MS
    ensures RoundDiv(100 * (3 * w - 1002), w) == 300
  {
    var n := 2 * (100 * (3 * w - 1002)) + w;
    assert n == 300 * (2 * w) + (w - 200400);
    DivAtLeast(300, 2 * w, n);
    DivBelow(301, 2 * w, n);
  }

  lemma ReservationsSnoc(events: seq<Event>, e: Event)
    ensures Reservations(events + [e]) == Reservations(events) + if e.blockType == "RESERVATION" then [e.span] else []
  {
    assert (events + [e])[..|events + [e]| - 1] == events;
  }

  lemma CappedSumSnoc(spans: seq<Span>, s: Span, window: nat)
    ensures CappedSum(spans + [s], window) == CappedSum(spans, window) + Min(Len(s), window)
  {
    assert (spans + [s])[..|spans + [s]| - 1] == spans;
  }

  lemma OneVehicleFleet(v: Vehicle, window: nat)
    ensures FleetBooked([v], window) == BookedTime(v, window)
  {
    assert [v][..0] == [];
  }

  // ---- From the block table to the bar ----

  /** The events the calendar endpoint serves for one vehicle: live blocks of the vehicle that meet the window. */
  ghost predicate ServedFrom(t: Repository.Table, vehicle: string, w: Span, ids: seq<Repository.Id>, types: seq<string>,
                             events: seq<Event>)
  {
    && |ids| == |types| == |events|
    && (forall i, j :: 0 <= i < j < |ids| ==> ids[i] != ids[j])
    && forall i :: 0 <= i < |ids| ==>
         && ids[i] in t && Repository.Live(t[ids[i]]) && t[ids[i]].vehicle == vehicle
         && events[i] == Event(types[i], Span(t[ids[i]].start, t[ids[i]].end))
         && events[i].span.from < w.to && w.from < events[i].span.to
  }

  ghost predicate EventsApart(events: seq<Event>) {
    forall i, j :: 0 <= i < j < |events| ==> Apart(events[i].span, events[j].span)
  }

  lemma {:induction false} ReservationsOfServed(events: seq<Event>, w: Span)
    requires EventsApart(events) && forall e :: e in events ==> Meets(e.span, w)
    ensures PairwiseApart(Reservations(events)) && AllMeet(Reservations(events), w)
    ensures forall s :: s in Reservations(events) ==> exists e :: e in events && e.span == s
  {
    if events != [] {
      var init, e := events[..|events| - 1], events[|events| - 1];
      ReservationsOfServed(init, w);
      forall i | 0 <= i < |Reservations(init)| ensures Apart(Reservations(init)[i], e.span) {
        assert Reservations(init)[i] in Reservations(init);
        var f :| f in init && f.span == Reservations(init)[i];
        var k :| 0 <= k < |init| && init[k] == f;
        assert Apart(events[k].span, events[|events| - 1].span);
      }
      forall s | s in Reservations(events) ensures exists e :: e in events && e.span == s {
        if s in Reservations(init) {
          var f :| f in init && f.span == s;
          assert f in events;
        } else {
          assert e in events;
        }
      }
    }
  }

  /** The table's exclusion constraint is what makes the served events disjoint, whatever requests filled it. */
  lemma ServedEventsAreDisjoint(requests: seq<Repository.Request>, v: Vehicle, w: Span,
                                ids: seq<Repository.Id>, types: seq<string>)
    requires ServedFrom(Repository.Serve(requests), v.id, w, ids, types, v.events)
    ensures VehicleServed(v, w) && EventsApart(v.events)
  {
    Repository.LiveBlocksStayDisjoint(requests);
    var t := Repository.Serve(requests);
    forall i, j | 0 <= i < j < |ids| ensures Apart(v.events[i].span, v.events[j].span) {
      assert !Repository.Conflict(t[ids[i]], t[ids[j]]);
    }
    ReservationsOfServed(v.events, w);
  }

  /** Clipped to any window, the live blocks of one vehicle are together no longer than the window. */
  lemma LiveBlocksFitAnyWindow(requests: seq<Repository.Request>, v: Vehicle, w: Span,
                               ids: seq<Repository.Id>, types: seq<string>)
    requires ServedFrom(Repository.Serve(requests), v.id, w, ids, types, v.events)
    ensures TotalLen(Clips(EventSpans(v.events), w)) <= Len(w)
  {
    ServedEventsAreDisjoint(requests, v, w, ids, types);
    forall i, j | 0 <= i < j < |v.events| ensures Apart(EventSpans(v.events)[i], EventSpans(v.events)[j]) {
      assert Apart(v.events[i].span, v.events[j].span);
    }
    ClipsFit(EventSpans(v.events), w);
  }

  function EventSpans(events: seq<Event>): seq<Span> {
    seq(|events|, i requires 0 <= i < |events| => events[i].span)
  }

  // ---- Grouping ----

  datatype Group = Group(home: string, vehicles: seq<Vehicle>)

  function AtHome(vehicles: seq<Vehicle>, home: string): seq<Vehicle> {
    if vehicles == [] then []
    else AtHome(vehicles[..|vehicles| - 1], home) +
         if vehicles[|vehicles| - 1].home == home then [vehicles[|vehicles| - 1]] else []
  }

  /** The homes in order of first appearance. */
  function Homes(vehicles: seq<Vehicle>): seq<string> {
    if vehicles == [] then []
    else
      var before, home := Homes(vehicles[..|vehicles| - 1]), vehicles[|vehicles| - 1].home;
      if home in before then before else before + [home]
  }

  lemma {:induction false} HomesComplete(vehicles: seq<Vehicle>, home: string)
    ensures home !in Homes(vehicles) ==> AtHome(vehicles, home) == []
    ensures forall i, j :: 0 <= i < j < |Homes(vehicles)| ==> Homes(vehicles)[i] != Homes(vehicles)[j]
    ensures forall v :: v in vehicles ==> v.home in Homes(vehicles)
  {
    if vehicles != [] {
      HomesComplete(vehicles[..|vehicles| - 1], home);
    }
  }

  /** One group per home, in order of first appearance, each holding its vehicles in their original order. */
  method GroupByHome(vehicles: seq<Vehicle>) returns (groups: seq<Group>)
    ensures |groups| == |Homes(vehicles)|
    ensures forall k :: 0 <= k < |groups| ==>
              groups[k] == Group(Homes(vehicles)[k], AtHome(vehicles, Homes(vehicles)[k]))
    ensures GroupSizes(groups) == |vehicles|
  {
    var order: seq<string> := [];
    var members: map<string, seq<Vehicle>> := map[];
    for i := 0 to |vehicles|
      invariant order == Homes(vehicles[..i])
      invariant forall h :: h in members <==> h in order
      invariant forall h :: h in members ==> members[h] == AtHome(vehicles[..i], h)
    {
      var v := vehicles[i];
      assert vehicles[..i + 1][..i] == vehicles[..i];
      HomesComplete(vehicles[..i], v.home);
      if v.home !in members {
        order := order + [v.home];
        members := members[v.home := []];
      }
      members := members[v.home := members[v.home] + [v]];
    }
    assert vehicles[..|vehicles|] == vehicles;
    groups := seq(|order|, k requires 0 <= k < |order| && order[k] in members => Group(order[k], members[order[k]]));
    GroupSizesCount(vehicles, groups);
    HomesComplete(vehicles, "");
    GroupsConserveVehicles(vehicles, Homes(vehicles));
  }

  function GroupSizes(groups: seq<Group>): nat {
    if groups == [] then 0 else GroupSizes(groups[..|groups| - 1]) + |groups[|groups| - 1].vehicles|
  }

  function HomesOf(groups: seq<Group>): (homes: seq<string>)
    ensures |homes| == |groups| && forall k :: 0 <= k < |groups| ==> homes[k] == groups[k].home
  {
    seq(|groups|, k requires 0 <= k < |groups| => groups[k].home)
  }

  lemma {:induction false} SizesByHome(vehicles: seq<Vehicle>, groups: seq<Group>)
    requires forall k :: 0 <= k < |groups| ==> groups[k].vehicles == AtHome(vehicles, groups[k].home)
    ensures GroupSizes(groups) == GroupedCount(vehicles, HomesOf(groups))
  {
    if groups != [] {
      SizesByHome(vehicles, groups[..|groups| - 1]);
      assert HomesOf(groups)[..|groups| - 1] == HomesOf(groups[..|groups| - 1]);
    }
  }

  lemma GroupSizesCount(vehicles: seq<Vehicle>, groups: seq<Group>)
    requires |groups| == |Homes(vehicles)|
    requires forall k :: 0 <= k < |groups| ==>
               groups[k] == Group(Homes(vehicles)[k], AtHome(vehicles, Homes(vehicles)[k]))
    ensures GroupSizes(groups) == GroupedCount(vehicles, Homes(vehicles))
  {
    SizesByHome(vehicles, groups);
    assert HomesOf(groups) == Homes(vehicles);
  }

  /** `picked` gives the positions of the vehicles at `home`, in increasing order and all of them. */
  ghost predicate PositionsAt(vehicles: seq<Vehicle>, home: string, picked: seq<nat>) {
    && (forall k :: 0 <= k < |picked| ==> picked[k] < |vehicles| && vehicles[picked[k]].home == home)
    && (forall k, l :: 0 <= k < l < |picked| ==> picked[k] < picked[l])
    && (forall i: nat :: i < |vehicles| && vehicles[i].home == home ==> i in picked)
  }

  /** A group holds the vehicles of its home, all of them, in their original order. */
  lemma {:induction false} AtHomeInOrder(vehicles: seq<Vehicle>, home: string) returns (picked: seq<nat>)
    ensures PositionsAt(vehicles, home, picked)
    ensures |AtHome(vehicles, home)| == |picked|
    ensures forall k :: 0 <= k < |picked| ==> AtHome(vehicles, home)[k] == vehicles[picked[k]]
  {
    if vehicles == [] {
      picked := [];
    } else {
      var init := vehicles[..|vehicles| - 1];
      var before := AtHomeInOrder(init, home);
      picked := before + if vehicles[|init|].home == home then [|init|] else [];
      forall i: nat | i < |vehicles| && vehicles[i].home == home ensures i in picked {
        if i < |init| {
          assert i in before;
        }
      }
    }
  }

  lemma {:induction false} HomesAppear(vehicles: seq<Vehicle>)
    ensures forall h :: h in Homes(vehicles) ==> exists i :: 0 <= i < |vehicles| && vehicles[i].home == h
  {
    if vehicles != [] {
      var init := vehicles[..|vehicles| - 1];
      HomesAppear(init);
      forall h | h in Homes(vehicles) ensures exists i :: 0 <= i < |vehicles| && vehicles[i].home == h {
        if h in Homes(init) {
          var i :| 0 <= i < |init| && init[i].home == h;
          assert vehicles[i].home == h;
        } else {
          assert vehicles[|init|].home == h;
        }
      }
    }
  }

  /** An earlier group's home appears before any vehicle of a later group. */
  lemma {:induction false} GroupsByFirstAppearance(vehicles: seq<Vehicle>, k: nat, l: nat)
    requires k < l < |Homes(vehicles)|
    ensures exists i :: 0 <= i < |vehicles| && vehicles[i].home == Homes(vehicles)[k]
                        && forall j :: 0 <= j <= i ==> vehicles[j].home != Homes(vehicles)[l]
  {
    var init := vehicles[..|vehicles| - 1];
    var i: nat;
    if l < |Homes(init)| {
      GroupsByFirstAppearance(init, k, l);
      i :| 0 <= i < |init| && init[i].home == Homes(init)[k] && forall j :: 0 <= j <= i ==> init[j].home != Homes(init)[l];
    } else {
      HomesAppear(init);
      HomesComplete(init, Homes(vehicles)[l]);
      assert Homes(init)[k] in Homes(init);
      i :| 0 <= i < |init| && init[i].home == Homes(init)[k];
      forall j | 0 <= j <= i ensures init[j].home != Homes(vehicles)[l] {
        assert init[j] in init;
      }
    }
    assert vehicles[i].home == Homes(vehicles)[k];
    assert forall j :: 0 <= j <= i ==> vehicles[j] == init[j];
  }

  /** Grouping loses no vehicle and invents none. */
  lemma {:induction false} GroupsConserveVehicles(vehicles: seq<Vehicle>, homes: seq<string>)
    requires forall i, j :: 0 <= i < j < |homes| ==> homes[i] != homes[j]
    requires forall v :: v in vehicles ==> v.home in homes
    ensures GroupedCount(vehicles, homes) == |vehicles|
  {
    if vehicles == [] {
      EmptyGroups(homes);
    } else {
      var init, v := vehicles[..|vehicles| - 1], vehicles[|vehicles| - 1];
      GroupsConserveVehicles(init, homes);
      AddToGroup(init, v, homes);
      assert init + [v] == vehicles;
    }
  }

  function GroupedCount(vehicles: seq<Vehicle>, homes: seq<string>): nat {
    if homes == [] then 0
    else GroupedCount(vehicles, homes[..|homes| - 1]) + |AtHome(vehicles, homes[|homes| - 1])|
  }

  lemma {:induction false} EmptyGroups(homes: seq<string>)
    ensures GroupedCount([], homes) == 0
  {
    if homes != [] {
      EmptyGroups(homes[..|homes| - 1]);
    }
  }

  lemma {:induction false} AddToGroup(vehicles: seq<Vehicle>, v: Vehicle, homes: seq<string>)
    requires forall i, j :: 0 <= i < j < |homes| ==> homes[i] != homes[j]
    ensures GroupedCount(vehicles + [v], homes) == GroupedCount(vehicles, homes) + if v.home in homes then 1 else 0
  {
    if homes != [] {
      var init, last := homes[..|homes| - 1], homes[|homes| - 1];
      AddToGroup(vehicles, v, init);
      assert (vehicles + [v])[..|vehicles + [v]| - 1] == vehicles;
      assert v.home in homes <==> v.home in init || v.home == last;
      assert last !in init;
    }
  }
}
