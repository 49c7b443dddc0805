/**
 The seed script's vehicle allocator: each returned or checked-out reservation gets the first vehicle
 of its class that is not on rent, else the first one anywhere; only a checked-out one keeps it.
 */
module SeedAllocator {
  import opened Wrappers

  datatype Status = Returned | CheckedOut | OtherStatus

  datatype Reservation = Reservation(status: Status, classId: string)

  /** The pools in the order in which their classes were first met. */
  datatype Pool = Pool(classId: string, vehicles: seq<string>)

  /** `reservation` is the reservation's position; an agreement not ACTIVE is RETURNED. */
  datatype Agreement = Agreement(reservation: nat, vehicle: string, active: bool)

  datatype Allocation = Allocation(agreements: seq<Agreement>, onRent: set<string>)

  predicate NeedsVehicle(r: Reservation) {
    r.status != OtherStatus
  }

  // ---- The specification ----

  function FirstFree(vehicles: seq<string>, taken: set<string>): Option<string> {
    if vehicles == [] then None
    else if vehicles[0] !in taken then Some(vehicles[0])
    else FirstFree(vehicles[1..], taken)
  }

  function PoolOf(pools: seq<Pool>, classId: string): seq<string> {
    if pools == [] then []
    else if pools[0].classId == classId then pools[0].vehicles
    else PoolOf(pools[1..], classId)
  }

  function FirstFreeAnywhere(pools: seq<Pool>, taken: set<string>): Option<string> {
    if pools == [] then None
    else
      var v := FirstFree(pools[0].vehicles, taken);
      if v.Some? then v else FirstFreeAnywhere(pools[1..], taken)
  }

  function Pick(pools: seq<Pool>, classId: string, taken: set<string>): Option<string> {
    var v := FirstFree(PoolOf(pools, classId), taken);
    if v.Some? then v else FirstFreeAnywhere(pools, taken)
  }

  function Allocate(pools: seq<Pool>, rs: seq<Reservation>): Allocation {
    if rs == [] then Allocation([], {})
    else
      var a, r := Allocate(pools, rs[..|rs| - 1]), rs[|rs| - 1];
      var v := Pick(pools, r.classId, a.onRent);
      if !NeedsVehicle(r) || v.None? then a
      else
        Allocation(a.agreements + [Agreement(|rs| - 1, v.value, r.status == CheckedOut)],
                   if r.status == CheckedOut then a.onRent + {v.value} else a.onRent)
  }

  // ---- The loops ----

  method FindFree(vehicles: seq<string>, taken: set<string>) returns (vehicle: Option<string>)
    ensures vehicle == FirstFree(vehicles, taken)
  {
    vehicle := None;
    for i := 0 to |vehicles|
      invariant vehicle == None
      invariant FirstFree(vehicles[i..], taken) == FirstFree(vehicles, taken)
    {
      if vehicles[i] !in taken {
        vehicle := Some(vehicles[i]);
        break;
      }
      assert vehicles[i..][1..] == vehicles[i + 1..];
    }
  }

  method FindVehicle(pools: seq<Pool>, classId: string, taken: set<string>) returns (vehicle: Option<string>)
    ensures vehicle == Pick(pools, classId, taken)
  {
    vehicle := FindFree(PoolOf(pools, classId), taken);
    if vehicle == None {
      for i := 0 to |pools|
        invariant vehicle == None
        invariant FirstFreeAnywhere(pools[i..], taken) == FirstFreeAnywhere(pools, taken)
      {
        vehicle := FindFree(pools[i].vehicles, taken);
        if vehicle != None {
          break;
        }
        assert pools[i..][1..] == pools[i + 1..];
      }
    }
  }

  method GenerateAgreements(pools: seq<Pool>, rs: seq<Reservation>) returns (agreements: seq<Agreement>, onRent: set<string>)
    ensures Allocation(agreements, onRent) == Allocate(pools, rs)
  {
    agreements, onRent := [], {};
    for i := 0 to |rs|
      invariant Allocation(agreements, onRent) == Allocate(pools, rs[..i])
    {
      assert rs[..i + 1][..i] == rs[..i];
      if !NeedsVehicle(rs[i]) {
        continue;
      }
      var vehicle := FindVehicle(pools, rs[i].classId, onRent);
      if vehicle == None {
        continue;
      }
      agreements := agreements + [Agreement(i, vehicle.value, rs[i].status == CheckedOut)];
      if rs[i].status == CheckedOut {
        onRent := onRent + {vehicle.value};
      }
    }
    assert rs[..|rs|] == rs;
  }

  // ---- What the choice guarantees ----

  function Fleet(pools: seq<Pool>): set<string> {
    set p, v | p in pools && v in p.vehicles :: v
  }

  /** `v` is the first of the vehicles that is not taken. */
  ghost predicate FirstIn(vehicles: seq<string>, taken: set<string>, v: string) {
    v !in taken && exists i :: 0 <= i < |vehicles| && vehicles[i] == v && forall j :: 0 <= j < i ==> vehicles[j] in taken
  }

  ghost predicate AllTaken(vehicles: seq<string>, taken: set<string>) {
    forall v :: v in vehicles ==> v in taken
  }

  /** `v` is the first free vehicle of its class, or, the class having none, the first free one in pool order. */
  ghost predicate FirstFit(pools: seq<Pool>, classId: string, taken: set<string>, v: string) {
    if AllTaken(PoolOf(pools, classId), taken) then
      exists p :: 0 <= p < |pools| && FirstIn(pools[p].vehicles, taken, v)
                  && forall q :: 0 <= q < p ==> AllTaken(pools[q].vehicles, taken)
    else FirstIn(PoolOf(pools, classId), taken, v)
  }

  lemma {:induction false} FirstFreeMeaning(vehicles: seq<string>, taken: set<string>)
    ensures match FirstFree(vehicles, taken)
            case Some(v) => v in vehicles && FirstIn(vehicles, taken, v)
            case None => forall v :: v in vehicles ==> v in taken
  {
    if vehicles != [] {
      FirstFreeMeaning(vehicles[1..], taken);
      match FirstFree(vehicles, taken)
      case Some(v) =>
        if vehicles[0] in taken {
          var i: nat :| i < |vehicles[1..]| && vehicles[1..][i] == v && forall j :: 0 <= j < i ==> vehicles[1..][j] in taken;
          assert vehicles[i + 1] == v;
          assert forall j :: 0 < j < i + 1 ==> vehicles[j] == vehicles[1..][j - 1];
        } else {
          assert vehicles[0] == v;
        }
      case None =>
    }
  }

  /** The first pool of the class is the one looked up; a class without a pool has no vehicles. */
  lemma {:induction false} PoolOfMeaning(pools: seq<Pool>, classId: string)
    ensures if forall i :: 0 <= i < |pools| ==> pools[i].classId != classId then PoolOf(pools, classId) == []
            else exists i :: 0 <= i < |pools| && pools[i].classId == classId && PoolOf(pools, classId) == pools[i].vehicles
                             && forall j :: 0 <= j < i ==> pools[j].classId != classId
  {
    if pools != [] && pools[0].classId != classId {
      PoolOfMeaning(pools[1..], classId);
      assert forall i :: 0 < i < |pools| ==> pools[i] == pools[1..][i - 1];
      if i :| 0 <= i < |pools[1..]| && pools[1..][i].classId == classId
              && PoolOf(pools[1..], classId) == pools[1..][i].vehicles
              && forall j :: 0 <= j < i ==> pools[1..][j].classId != classId {
        assert pools[i + 1].classId == classId;
      }
    }
  }

  lemma {:induction false} PoolInFleet(pools: seq<Pool>, classId: string)
    ensures forall v :: v in PoolOf(pools, classId) ==> v in Fleet(pools)
  {
    if pools != [] && pools[0].classId != classId {
      PoolInFleet(pools[1..], classId);
    }
  }

  lemma {:induction false} AnywhereMeaning(pools: seq<Pool>, taken: set<string>)
    ensures match FirstFreeAnywhere(pools, taken)
            case Some(v) =>
              && v in Fleet(pools) && v !in taken
              && exists p :: 0 <= p < |pools| && FirstIn(pools[p].vehicles, taken, v)
                             && forall q :: 0 <= q < p ==> AllTaken(pools[q].vehicles, taken)
            case None => Fleet(pools) <= taken
  {
    if pools != [] {
      FirstFreeMeaning(pools[0].vehicles, taken);
      AnywhereMeaning(pools[1..], taken);
      assert pools == [pools[0]] + pools[1..];
      match FirstFreeAnywhere(pools, taken)
      case Some(v) =>
        if FirstFree(pools[0].vehicles, taken).None? {
          var p: nat :| p < |pools[1..]| && FirstIn(pools[1..][p].vehicles, taken, v)
                        && forall q :: 0 <= q < p ==> AllTaken(pools[1..][q].vehicles, taken);
          assert pools[p + 1] == pools[1..][p];
          forall q | 0 <= q < p + 1 ensures AllTaken(pools[q].vehicles, taken) {
            assert q > 0 ==> pools[q] == pools[1..][q - 1];
          }
        }
      case None =>
    }
  }

  /** A vehicle is found exactly while one is free, it is free, and it is of another class only if its class has none. */
  lemma PickMeaning(pools: seq<Pool>, classId: string, taken: set<string>)
    ensures match Pick(pools, classId, taken)
            case Some(v) =>
              && v in Fleet(pools) && v !in taken
              && (v !in PoolOf(pools, classId) ==> forall u :: u in PoolOf(pools, classId) ==> u in taken)
              && FirstFit(pools, classId, taken, v)
            case None => Fleet(pools) <= taken
  {
    FirstFreeMeaning(PoolOf(pools, classId), taken);
    PoolInFleet(pools, classId);
    AnywhereMeaning(pools, taken);
  }

  /** The vehicles of the ACTIVE agreements. */
  function ActiveVehicles(agreements: seq<Agreement>): set<string> {
    set a | a in agreements && a.active :: a.vehicle
  }

  function ActiveCount(agreements: seq<Agreement>): nat {
    if agreements == [] then 0
    else ActiveCount(agreements[..|agreements| - 1]) + if agreements[|agreements| - 1].active then 1 else 0
  }

  function CountStatus(rs: seq<Reservation>, s: Status): nat {
    if rs == [] then 0 else CountStatus(rs[..|rs| - 1], s) + if rs[|rs| - 1].status == s then 1 else 0
  }

  /** Agreement `k` is for a reservation that needs a vehicle, has its status, and takes a vehicle not on rent before it. */
  ghost predicate WellAllocated(pools: seq<Pool>, rs: seq<Reservation>, agreements: seq<Agreement>, k: nat)
    requires k < |agreements|
  {
    var a, before := agreements[k], ActiveVehicles(agreements[..k]);
    && a.reservation < |rs| && rs[a.reservation].status in {Returned, CheckedOut}
    && FirstFit(pools, rs[a.reservation].classId, before, a.vehicle)
    && (a.active <==> rs[a.reservation].status == CheckedOut)
    && a.vehicle in Fleet(pools) && a.vehicle !in before
    && (a.vehicle !in PoolOf(pools, rs[a.reservation].classId) ==>
          forall u :: u in PoolOf(pools, rs[a.reservation].classId) ==> u in before)
  }

  ghost predicate AllWellAllocated(pools: seq<Pool>, rs: seq<Reservation>, agreements: seq<Agreement>) {
    forall k :: 0 <= k < |agreements| ==> WellAllocated(pools, rs, agreements, k)
  }

  lemma ActiveVehiclesSnoc(agreements: seq<Agreement>, a: Agreement)
    ensures ActiveVehicles(agreements + [a]) == ActiveVehicles(agreements) + if a.active then {a.vehicle} else {}
  {
    assert forall b :: b in agreements + [a] <==> b in agreements || b == a;
  }

  lemma WellAllocatedExtends(pools: seq<Pool>, rs: seq<Reservation>, r: Reservation, agreements: seq<Agreement>,
                             more: seq<Agreement>)
    requires AllWellAllocated(pools, rs, agreements)
    requires agreements <= more && |more| <= |agreements| + 1
    requires |more| > |agreements| ==> WellAllocated(pools, rs + [r], more, |agreements|)
    ensures AllWellAllocated(pools, rs + [r], more)
  {
    forall k | 0 <= k < |more| ensures WellAllocated(pools, rs + [r], more, k) {
      if k < |agreements| {
        assert WellAllocated(pools, rs, agreements, k);
        assert more[..k] == agreements[..k] && more[k] == agreements[k];
        assert (rs + [r])[more[k].reservation] == rs[more[k].reservation];
      }
    }
  }

  /**
   Every agreement is well allocated, ON_RENT is exactly the vehicles of the ACTIVE agreements, and no
   two of those share a vehicle.
   */
  lemma {:induction false} AllocationSound(pools: seq<Pool>, rs: seq<Reservation>)
    ensures var a := Allocate(pools, rs);
            && AllWellAllocated(pools, rs, a.agreements)
            && a.onRent == ActiveVehicles(a.agreements) && a.onRent <= Fleet(pools)
            && ActiveCount(a.agreements) == |a.onRent|
  {
    if rs != [] {
      var init, r := rs[..|rs| - 1], rs[|rs| - 1];
      AllocationSound(pools, init);
      var a, next := Allocate(pools, init), Allocate(pools, rs);
      PickMeaning(pools, r.classId, a.onRent);
      assert rs == init + [r];
      if next.agreements != a.agreements {
        var g := next.agreements[|next.agreements| - 1];
        assert next.agreements == a.agreements + [g];
        ActiveVehiclesSnoc(a.agreements, g);
        assert next.agreements[..|a.agreements|] == a.agreements;
        assert WellAllocated(pools, rs, next.agreements, |a.agreements|);
      }
      WellAllocatedExtends(pools, init, r, a.agreements, next.agreements);
    }
  }

  /** A vehicle once on rent is never handed out again; in particular ACTIVE agreements have distinct vehicles. */
  lemma RentedVehicleNotReused(pools: seq<Pool>, rs: seq<Reservation>, i: nat, j: nat)
    requires i < j < |Allocate(pools, rs).agreements| && Allocate(pools, rs).agreements[i].active
    ensures Allocate(pools, rs).agreements[j].vehicle != Allocate(pools, rs).agreements[i].vehicle
  {
    AllocationSound(pools, rs);
    var agreements := Allocate(pools, rs).agreements;
    assert WellAllocated(pools, rs, agreements, j);
    assert agreements[..j][i] == agreements[i];
    assert agreements[i] in agreements[..j];
  }

  /**
   Exactly min(checked-out reservations, fleet size) agreements are ACTIVE, and as long as some vehicle
   is free at the end every reservation that needs one got one.
   */
  lemma {:induction false} ActiveAgreementsCount(pools: seq<Pool>, rs: seq<Reservation>)
    ensures var a, out, fleet := Allocate(pools, rs), CountStatus(rs, CheckedOut), |Fleet(pools)|;
            && ActiveCount(a.agreements) == (if out <= fleet then out else fleet)
            && (|a.onRent| < fleet ==> |a.agreements| == out + CountStatus(rs, Returned))
  {
    AllocationSound(pools, rs);
    if rs != [] {
      var init, r := rs[..|rs| - 1], rs[|rs| - 1];
      ActiveAgreementsCount(pools, init);
      AllocationSound(pools, init);
      var a, next := Allocate(pools, init), Allocate(pools, rs);
      PickMeaning(pools, r.classId, a.onRent);
      ProperSubsetCard(a.onRent, Fleet(pools));
      ProperSubsetCard(next.onRent, Fleet(pools));
    }
  }

  lemma ProperSubsetCard(a: set<string>, b: set<string>)
    requires a <= b
    ensures |a| <= |b| && (|a| == |b| <==> b <= a)
  {
    assert b == a + (b - a);
  }

  ghost predicate Serves(agreements: seq<Agreement>, i: nat) {
    exists k :: 0 <= k < |agreements| && agreements[k].reservation == i
  }

  /** Agreements follow the order of the reservations, so none has two. */
  ghost predicate InOrder(agreements: seq<Agreement>, n: nat) {
    && (forall k, l :: 0 <= k < l < |agreements| ==> agreements[k].reservation < agreements[l].reservation)
    && (forall k :: 0 <= k < |agreements| ==> agreements[k].reservation < n)
  }

  lemma {:induction false} AgreementsInOrder(pools: seq<Pool>, rs: seq<Reservation>)
    ensures InOrder(Allocate(pools, rs).agreements, |rs|)
  {
    if rs != [] {
      AgreementsInOrder(pools, rs[..|rs| - 1]);
    }
  }

  /** A returned or checked-out reservation gets its one agreement if and only if a vehicle is not on rent when its turn comes. */
  lemma {:induction false} ServedExactly(pools: seq<Pool>, rs: seq<Reservation>, i: nat)
    requires i < |rs|
    ensures InOrder(Allocate(pools, rs).agreements, |rs|)
    ensures Serves(Allocate(pools, rs).agreements, i) <==>
              rs[i].status in {Returned, CheckedOut} && !(Fleet(pools) <= Allocate(pools, rs[..i]).onRent)
  {
    AgreementsInOrder(pools, rs);
    var init, r := rs[..|rs| - 1], rs[|rs| - 1];
    var a, next := Allocate(pools, init), Allocate(pools, rs);
    PickMeaning(pools, r.classId, a.onRent);
    AgreementsInOrder(pools, init);
    if i == |init| {
      assert rs[..i] == init;
      if next.agreements != a.agreements {
        assert next.agreements[|a.agreements|].reservation == i;
      }
    } else {
      ServedExactly(pools, init, i);
      assert init[..i] == rs[..i];
      if k :| 0 <= k < |a.agreements| && a.agreements[k].reservation == i {
        assert next.agreements[k].reservation == i;
      }
    }
  }
}
