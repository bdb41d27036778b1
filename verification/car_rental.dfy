/** The car-rental system of CarRental.js: automobiles priced by a
    per-type daily rate plus their equipment, reservations priced by
    rental days, a reservation registry keyed by reservation id, and the
    front desk that keeps vehicles by barcode and members by id.

    Reservation ids, drawn at random in the source, are supplied by the
    caller; dates are integer milliseconds. */
module CarRental {
  import opened Wrappers
  import opened JsNumbers
  import OM = OrderedMap
  import Seqs

  type Barcode = string
  type MemberId = string
  type ReservationId = string

  /** The strings of the six listed types. */
  const ListedTypeNames: set<string> := {"SEDAN", "SUV", "HATCHBACK", "COUPE", "CONVERTIBLE", "WAGON"}

  /** A type string outside the listed six. */
  type UnlistedName = s: string | s !in ListedTypeNames witness ""

  /** The six listed types, and any other string the constructor is
      given; `OtherType` never carries a listed string, so every type has
      one representation. */
  datatype AutomobileType = Sedan | Suv | Hatchback | Coupe | Convertible | Wagon | OtherType(name: UnlistedName)

  /** The type a string names: one of the six when it is one of their
      strings, otherwise an unlisted type carrying the string. */
  function TypeOf(s: string): (t: AutomobileType)
    ensures t.OtherType? <==> s !in ListedTypeNames
    ensures t.OtherType? ==> t.name == s
  {
    if s == "SEDAN" then Sedan
    else if s == "SUV" then Suv
    else if s == "HATCHBACK" then Hatchback
    else if s == "COUPE" then Coupe
    else if s == "CONVERTIBLE" then Convertible
    else if s == "WAGON" then Wagon
    else OtherType(s)
  }

  /** The string a type is stored as. */
  function TypeName(t: AutomobileType): (s: string)
    ensures t.OtherType? <==> s !in ListedTypeNames
  {
    match t
    case Sedan => "SEDAN"
    case Suv => "SUV"
    case Hatchback => "HATCHBACK"
    case Coupe => "COUPE"
    case Convertible => "CONVERTIBLE"
    case Wagon => "WAGON"
    case OtherType(n) => n
  }

  /** Types and their strings are in one-to-one correspondence. */
  lemma TypeNameRoundTrip(t: AutomobileType, s: string)
    ensures TypeOf(TypeName(t)) == t
    ensures TypeName(TypeOf(s)) == s
  {
  }

  /** The rate charged when the type is not in the table. */
  const DefaultBaseRate: int := 50

  /** The daily base rate table. */
  function BaseRate(t: AutomobileType): (r: int)
    ensures r > 0
    ensures t.OtherType? ==> r == DefaultBaseRate
  {
    match t
    case Sedan => 50
    case Suv => 80
    case Hatchback => 45
    case Coupe => 60
    case Convertible => 85
    case Wagon => 55
    case OtherType(_) => DefaultBaseRate
  }

  datatype Equipment = Equipment(name: string, dailyRate: int)
  datatype Insurance = Insurance(kind: string, dailyRate: int, coverage: int)
  datatype Member = Member(name: string, email: string, phone: string, id: MemberId, balance: int)

  /** The automobile part of a vehicle: its type, the equipment fitted and
      the reservation it is out on. */
  datatype Automobile = Automobile(kind: AutomobileType, equipment: seq<Equipment>, currentReservation: Option<ReservationId>)

  /** A vehicle; `auto` is `None` for a plain `Vehicle`, which is not an
      automobile. */
  datatype Vehicle = Vehicle(barcode: Barcode, isAvailable: bool, parkingLotNumber: int, auto: Option<Automobile>)

  /** `new Automobile(type, barCode, lot)`: available, nothing fitted. */
  function NewAutomobile(t: AutomobileType, barcode: Barcode, lot: int): (v: Vehicle)
    ensures v.isAvailable && v.auto.Some? && v.auto.value.equipment == []
    ensures RentalPrice(v.auto.value) == BaseRate(t)
  {
    Vehicle(barcode, true, lot, Some(Automobile(t, [], None)))
  }

  /** The sum of the daily rates. */
  function SumRates(es: seq<Equipment>): int
  {
    if |es| == 0 then 0 else SumRates(es[..|es| - 1]) + es[|es| - 1].dailyRate
  }

  /** `calculateRentalPrice`: the base rate for the type plus every fitted
      item's daily rate. */
  function RentalPrice(a: Automobile): int
  {
    BaseRate(a.kind) + SumRates(a.equipment)
  }

  /** `addEquipment`: the item is fitted, so the price rises by its rate. */
  function AddEquipment(a: Automobile, e: Equipment): (r: Automobile)
    ensures r.equipment == a.equipment + [e]
    ensures RentalPrice(r) == RentalPrice(a) + e.dailyRate
    ensures r.kind == a.kind && r.currentReservation == a.currentReservation
  {
    var r := a.(equipment := a.equipment + [e]);
    assert r.equipment[..|r.equipment| - 1] == a.equipment;
    r
  }

  /** Items with no negative rate add up to no negative charge. */
  lemma {:induction false} RatesNonNegative(es: seq<Equipment>)
    requires forall i :: 0 <= i < |es| ==> es[i].dailyRate >= 0
    ensures SumRates(es) >= 0
  {
    if |es| > 0 {
      RatesNonNegative(es[..|es| - 1]);
    }
  }

  /** With no negative-rate item fitted, an automobile costs at least its
      base rate a day. */
  lemma PriceAtLeastBaseRate(a: Automobile)
    requires forall i :: 0 <= i < |a.equipment| ==> a.equipment[i].dailyRate >= 0
    ensures RentalPrice(a) >= BaseRate(a.kind)
    ensures a.kind.OtherType? ==> RentalPrice(a) >= DefaultBaseRate
  {
    RatesNonNegative(a.equipment);
  }

  /** `setReservation`: the vehicle goes out on the reservation. */
  function SetReservation(v: Vehicle, id: ReservationId): (r: Vehicle)
    requires v.auto.Some?
    ensures !r.isAvailable && r.auto == Some(v.auto.value.(currentReservation := Some(id)))
    ensures r.barcode == v.barcode && r.parkingLotNumber == v.parkingLotNumber
  {
    v.(isAvailable := false, auto := Some(v.auto.value.(currentReservation := Some(id))))
  }

  /** `completeReservation`: the vehicle is back and on no reservation. */
  function CompleteReservation(v: Vehicle): (r: Vehicle)
    requires v.auto.Some?
    ensures r.isAvailable && r.auto == Some(v.auto.value.(currentReservation := None))
    ensures r.barcode == v.barcode && r.parkingLotNumber == v.parkingLotNumber
  {
    v.(isAvailable := true, auto := Some(v.auto.value.(currentReservation := None)))
  }

  /** Sending an idle automobile out and completing the reservation gives
      back the same vehicle. */
  lemma SetThenComplete(v: Vehicle, id: ReservationId)
    requires v.auto.Some? && v.isAvailable && v.auto.value.currentReservation.None?
    ensures CompleteReservation(SetReservation(v, id)) == v
  {
  }

  // --------------------------------------------------------- reservations

  datatype ReservationStatus = Scheduled | Active | Completed | Cancelled

  /** A reservation names its vehicle by barcode; the source holds the
      vehicle object itself, whose current state `TotalCost` takes as a
      parameter. */
  datatype Reservation = Reservation(
    id: ReservationId,
    vehicle: Barcode,
    member: Member,
    startDate: int,
    endDate: int,
    equipment: seq<Equipment>,
    insurance: Option<Insurance>,
    status: ReservationStatus,
    additionalServices: seq<(string, int)>)

  function NewReservation(id: ReservationId, v: Vehicle, m: Member, start: int, end: int): (r: Reservation)
    ensures r.status == Scheduled && r.equipment == [] && r.insurance.None? && r.additionalServices == []
  {
    Reservation(id, v.barcode, m, start, end, [], None, Scheduled, [])
  }

  /** `addEquipment` on a reservation. */
  function AddReservationEquipment(r: Reservation, e: Equipment): (r': Reservation)
    ensures r'.equipment == r.equipment + [e]
    ensures r' == r.(equipment := r'.equipment)
  {
    r.(equipment := r.equipment + [e])
  }

  /** `addInsurance`: any earlier insurance is replaced. */
  function AddInsurance(r: Reservation, i: Insurance): (r': Reservation)
    ensures r'.insurance == Some(i)
    ensures r' == r.(insurance := r'.insurance)
  {
    r.(insurance := Some(i))
  }

  /** `addService`: services are keyed by name, so adding one again
      replaces its price. */
  function AddService(r: Reservation, name: string, price: int): (r': Reservation)
    ensures OM.Get(r'.additionalServices, name) == Some(price)
    ensures forall other :: other != name ==> OM.Get(r'.additionalServices, other) == OM.Get(r.additionalServices, other)
    ensures r' == r.(additionalServices := r'.additionalServices)
  {
    var s := OM.Put(r.additionalServices, name, price);
    forall k ensures OM.Get(s, k) == if k == name then Some(price) else OM.Get(r.additionalServices, k) {
      OM.PutGet(r.additionalServices, name, price, k);
    }
    r.(additionalServices := s)
  }

  /** `cancel`. */
  function Cancel(r: Reservation): (r': Reservation)
    ensures r'.status == Cancelled && r' == r.(status := Cancelled)
  {
    r.(status := Cancelled)
  }

  /** The rental days: the date span rounded up to whole days. */
  function RentalDays(r: Reservation): (d: int)
    ensures (d - 1) * DayMs < r.endDate - r.startDate <= d * DayMs
  {
    CeilDiv(r.endDate - r.startDate, DayMs)
  }

  function SumPrices(s: seq<(string, int)>): int
  {
    if |s| == 0 then 0 else SumPrices(s[..|s| - 1]) + s[|s| - 1].1
  }

  /** `calculateTotalCost` for the reserved automobile `car` as it stands
      now, accumulated term by term in the order the source adds them: the
      vehicle, each reserved item, the insurance, then each service. */
  function TotalCost(r: Reservation, car: Automobile): int
  {
    var days := RentalDays(r);
    var afterEquipment := AddDailyRates(RentalPrice(car) * days, r.equipment, days);
    var afterInsurance := if r.insurance.Some? then afterEquipment + r.insurance.value.dailyRate * days else afterEquipment;
    AddPrices(afterInsurance, r.additionalServices)
  }

  /** The `forEach` over the reserved equipment. */
  function AddDailyRates(acc: int, es: seq<Equipment>, days: int): int
    decreases |es|
  {
    if |es| == 0 then acc else AddDailyRates(acc + es[0].dailyRate * days, es[1..], days)
  }

  /** The `forEach` over the services. */
  function AddPrices(acc: int, s: seq<(string, int)>): int
    decreases |s|
  {
    if |s| == 0 then acc else AddPrices(acc + s[0].1, s[1..])
  }

  lemma {:induction false} AddDailyRatesIsSum(acc: int, es: seq<Equipment>, days: int)
    ensures AddDailyRates(acc, es, days) == acc + SumRates(es) * days
    decreases |es|
  {
    if |es| > 0 {
      AddDailyRatesIsSum(acc + es[0].dailyRate * days, es[1..], days);
      SumRatesCons(es);
    }
  }

  lemma {:induction false} SumRatesCons(es: seq<Equipment>)
    requires |es| > 0
    ensures SumRates(es) == es[0].dailyRate + SumRates(es[1..])
  {
    if |es| > 1 {
      SumRatesCons(es[..|es| - 1]);
      assert es[..|es| - 1][1..] == es[1..][..|es[1..]| - 1];
    }
  }

  lemma {:induction false} AddPricesIsSum(acc: int, s: seq<(string, int)>)
    ensures AddPrices(acc, s) == acc + SumPrices(s)
    decreases |s|
  {
    if |s| > 0 {
      AddPricesIsSum(acc + s[0].1, s[1..]);
      SumPricesCons(s);
    }
  }

  lemma {:induction false} SumPricesCons(s: seq<(string, int)>)
    requires |s| > 0
    ensures SumPrices(s) == s[0].1 + SumPrices(s[1..])
  {
    if |s| > 1 {
      SumPricesCons(s[..|s| - 1]);
      assert s[..|s| - 1][1..] == s[1..][..|s[1..]| - 1];
    }
  }

  /** The total cost is the rental days times the daily charge (vehicle,
      reserved items and insurance) plus the services' one-off prices. */
  lemma TotalCostFormula(r: Reservation, car: Automobile)
    ensures TotalCost(r, car) == RentalDays(r) * (RentalPrice(car) + SumRates(r.equipment)
                              + (if r.insurance.Some? then r.insurance.value.dailyRate else 0))
                            + SumPrices(r.additionalServices)
  {
    var days := RentalDays(r);
    AddDailyRatesIsSum(RentalPrice(car) * days, r.equipment, days);
    var afterEquipment := AddDailyRates(RentalPrice(car) * days, r.equipment, days);
    var afterInsurance := if r.insurance.Some? then afterEquipment + r.insurance.value.dailyRate * days else afterEquipment;
    AddPricesIsSum(afterInsurance, r.additionalServices);
  }

  /** Pricing a service twice charges only the later price. */
  lemma {:induction false} ServicePriceReplaced(r: Reservation, car: Automobile, name: string, p1: int, p2: int)
    requires OM.HasKey(r.additionalServices, name)
    ensures TotalCost(AddService(r, name, p1), car) - TotalCost(AddService(r, name, p2), car) == p1 - p2
  {
    var i := OM.IndexOf(r.additionalServices, name);
    SumPricesUpdate(r.additionalServices, i, (name, p1));
    SumPricesUpdate(r.additionalServices, i, (name, p2));
    TotalCostFormula(AddService(r, name, p1), car);
    TotalCostFormula(AddService(r, name, p2), car);
  }

  /** Replacing one entry changes the sum by the difference in price. */
  lemma {:induction false} SumPricesUpdate(s: seq<(string, int)>, i: nat, e: (string, int))
    requires i < |s|
    ensures SumPrices(s[i := e]) == SumPrices(s) - s[i].1 + e.1
  {
    if i < |s| - 1 {
      SumPricesUpdate(s[..|s| - 1], i, e);
      assert s[i := e][..|s| - 1] == s[..|s| - 1][i := e];
    } else {
      assert s[i := e][..|s| - 1] == s[..|s| - 1];
    }
  }

  /** Adding insurance to an uninsured reservation adds its rate for each
      rental day; adding it again in its place changes nothing further. */
  lemma InsuranceCharge(r: Reservation, car: Automobile, i: Insurance, j: Insurance)
    requires r.insurance.None?
    ensures TotalCost(AddInsurance(r, i), car) == TotalCost(r, car) + i.dailyRate * RentalDays(r)
    ensures AddInsurance(AddInsurance(r, j), i) == AddInsurance(r, i)
  {
    TotalCostFormula(r, car);
    TotalCostFormula(AddInsurance(r, i), car);
  }

  /** The reservation prices the automobile as it stands: equipment fitted
      to it after booking is charged for every rental day. */
  lemma CostFollowsTheCar(r: Reservation, car: Automobile, e: Equipment)
    ensures TotalCost(r, AddEquipment(car, e)) == TotalCost(r, car) + e.dailyRate * RentalDays(r)
  {
    TotalCostFormula(r, car);
    TotalCostFormula(r, AddEquipment(car, e));
    var days := RentalDays(r);
    var rest := SumRates(r.equipment) + (if r.insurance.Some? then r.insurance.value.dailyRate else 0);
    assert RentalPrice(AddEquipment(car, e)) == RentalPrice(car) + e.dailyRate;
    Distribute(days, RentalPrice(car), e.dailyRate, rest);
  }

  /** Multiplication distributes over the extra daily rate. */
  lemma Distribute(days: int, price: int, extra: int, rest: int)
    ensures days * (price + extra + rest) == days * (price + rest) + extra * days
  {
  }

  // ---------------------------------------------------- reservation service

  datatype RentalError =
    | VehicleNotAvailable       // "Vehicle is not available"
    | InvalidDateRange          // "Invalid date range"
    | ReservationNotFound       // "Reservation not found"
    | VehicleOrMemberNotFound   // "Vehicle or member not found"
    | VehicleNotFound           // "Vehicle not found"

  /** The registry of `ReservationService`, in insertion order. */
  type Registry = seq<(ReservationId, Reservation)>

  /** `ReservationService.makeReservation`: refused for an unavailable
      vehicle or an empty or reversed date range; otherwise a scheduled
      reservation is filed under its id. The vehicle is not marked as
      taken. */
  function MakeReservation(reg: Registry, v: Vehicle, m: Member, start: int, end: int, id: ReservationId)
    : (r: Result<(Registry, Reservation), RentalError>)
    ensures !v.isAvailable ==> r == Err(VehicleNotAvailable)
    ensures v.isAvailable && start >= end ==> r == Err(InvalidDateRange)
    ensures r.Ok? <==> v.isAvailable && start < end
    ensures r.Ok? ==> r.value.1 == NewReservation(id, v, m, start, end) && r.value.1.vehicle == v.barcode
    ensures r.Ok? ==> OM.Get(r.value.0, id) == Some(r.value.1)
    ensures r.Ok? ==> forall other :: other != id ==> OM.Get(r.value.0, other) == OM.Get(reg, other)
  {
    if !v.isAvailable then Err(VehicleNotAvailable)
    else if start >= end then Err(InvalidDateRange)
    else
      var res := NewReservation(id, v, m, start, end);
      var reg' := OM.Put(reg, id, res);
      forall k ensures OM.Get(reg', k) == if k == id then Some(res) else OM.Get(reg, k) {
        OM.PutGet(reg, id, res, k);
      }
      Ok((reg', res))
  }

  /** `ReservationService.cancelReservation`: refused for an unknown id;
      otherwise the reservation is marked cancelled and leaves the
      registry. */
  function CancelReservation(reg: Registry, id: ReservationId): (r: Result<(Registry, Reservation), RentalError>)
    ensures r.Err? <==> !OM.HasKey(reg, id)
    ensures r.Err? ==> r.error == ReservationNotFound
    ensures r.Ok? ==> r.value.1 == Cancel(OM.Get(reg, id).value)
    ensures r.Ok? ==> OM.Get(r.value.0, id).None?
    ensures r.Ok? ==> forall other :: other != id ==> OM.Get(r.value.0, other) == OM.Get(reg, other)
  {
    match OM.Get(reg, id)
    case None => Err(ReservationNotFound)
    case Some(res) =>
      var reg' := OM.Remove(reg, id);
      forall k | k != id ensures OM.Get(reg', k) == OM.Get(reg, k) {
        OM.RemoveGet(reg, id, k);
      }
      Ok((reg', Cancel(res)))
  }

  /** Making a reservation under a new id and cancelling it leaves every
      lookup as before; a second cancellation is refused. */
  lemma MakeThenCancel(reg: Registry, v: Vehicle, m: Member, start: int, end: int, id: ReservationId)
    requires v.isAvailable && start < end && !OM.HasKey(reg, id)
    ensures var made := MakeReservation(reg, v, m, start, end, id);
      && made.Ok?
      && var cancelled := CancelReservation(made.value.0, id);
      && cancelled.Ok?
      && cancelled.value.1.status == Cancelled
      && (forall k :: OM.Get(cancelled.value.0, k) == OM.Get(reg, k))
      && CancelReservation(cancelled.value.0, id) == Err(ReservationNotFound)
  {
  }

  /** The vehicle stays available after a reservation, so the same vehicle
      can be reserved again for the same dates. */
  lemma DoubleBookingAccepted(reg: Registry, v: Vehicle, m1: Member, m2: Member, start: int, end: int, id1: ReservationId, id2: ReservationId)
    requires MakeReservation(reg, v, m1, start, end, id1).Ok? && id1 != id2
    ensures var first := MakeReservation(reg, v, m1, start, end, id1).value.0;
      && MakeReservation(first, v, m2, start, end, id2).Ok?
      && OM.HasKey(MakeReservation(first, v, m2, start, end, id2).value.0, id1)
  {
  }

  // -------------------------------------------------------- front desk

  datatype CarRentalSystem = CarRentalSystem(
    vehicles: seq<(Barcode, Vehicle)>,
    members: seq<(MemberId, Member)>,
    reservations: Registry)

  const EmptySystem: CarRentalSystem := CarRentalSystem([], [], [])

  /** `addVehicle`: filed under its barcode, replacing any vehicle there. */
  function AddVehicle(cr: CarRentalSystem, v: Vehicle): (r: CarRentalSystem)
    ensures OM.Get(r.vehicles, v.barcode) == Some(v)
    ensures forall b :: b != v.barcode ==> OM.Get(r.vehicles, b) == OM.Get(cr.vehicles, b)
    ensures r == cr.(vehicles := r.vehicles)
  {
    var t := OM.Put(cr.vehicles, v.barcode, v);
    forall b ensures OM.Get(t, b) == if b == v.barcode then Some(v) else OM.Get(cr.vehicles, b) {
      OM.PutGet(cr.vehicles, v.barcode, v, b);
    }
    cr.(vehicles := t)
  }

  /** `registerMember`: filed under the member's id. */
  function RegisterMember(cr: CarRentalSystem, m: Member): (r: CarRentalSystem)
    ensures OM.Get(r.members, m.id) == Some(m)
    ensures forall k :: k != m.id ==> OM.Get(r.members, k) == OM.Get(cr.members, k)
    ensures r == cr.(members := r.members)
  {
    var t := OM.Put(cr.members, m.id, m);
    forall k ensures OM.Get(t, k) == if k == m.id then Some(m) else OM.Get(cr.members, k) {
      OM.PutGet(cr.members, m.id, m, k);
    }
    cr.(members := t)
  }

  /** The filter of `searchVehicles`: available, and when a type is asked
      for, an automobile of that type or a vehicle that is not an
      automobile. The source treats an empty type string as no type. */
  predicate Matches(v: Vehicle, t: Option<AutomobileType>)
  {
    v.isAvailable && (t.None? || v.auto.None? || v.auto.value.kind == t.value)
  }

  function FilterVehicles(vs: seq<Vehicle>, t: Option<AutomobileType>): (r: seq<Vehicle>)
    ensures forall v :: v in r <==> v in vs && Matches(v, t)
  {
    if |vs| == 0 then [] else FilterVehicles(vs[..|vs| - 1], t) + Kept(vs[|vs| - 1], t)
  }

  /** One step of the filter: the vehicle alone, or nothing. */
  function Kept(v: Vehicle, t: Option<AutomobileType>): (r: seq<Vehicle>)
    ensures v in r <==> Matches(v, t)
    ensures |r| <= 1 && forall w :: w in r ==> w == v
  {
    if Matches(v, t) then [v] else []
  }

  /** The filter keeps the filing order: two runs of vehicles in a row
      filter to their filtered runs in a row, and a single vehicle is kept
      exactly when it matches. */
  lemma {:induction false} FilterVehiclesAppend(a: seq<Vehicle>, b: seq<Vehicle>, v: Vehicle, t: Option<AutomobileType>)
    ensures FilterVehicles(a + b, t) == FilterVehicles(a, t) + FilterVehicles(b, t)
    ensures FilterVehicles([v], t) == if Matches(v, t) then [v] else []
    decreases |b|
  {
    assert FilterVehicles([v], t) == Kept(v, t) by {
      FilterVehiclesSnoc([], v, t);
      assert [] + [v] == [v];
      assert FilterVehicles([], t) + Kept(v, t) == Kept(v, t);
    }
    if |b| == 0 {
      assert a + b == a;
    } else {
      FilterVehiclesAppend(a, b[..|b| - 1], v, t);
      FilterVehiclesLast(a, b, t);
    }
  }

  /** Filtering one more vehicle adds that vehicle when it matches. */
  lemma FilterVehiclesSnoc(vs: seq<Vehicle>, v: Vehicle, t: Option<AutomobileType>)
    ensures FilterVehicles(vs + [v], t) == FilterVehicles(vs, t) + Kept(v, t)
  {
    var vv := vs + [v];
    assert vv[..|vv| - 1] == vs;
  }

  /** The last vehicle of `b` is the last one filtered, after `a` or alone. */
  lemma FilterVehiclesLast(a: seq<Vehicle>, b: seq<Vehicle>, t: Option<AutomobileType>)
    requires |b| > 0
    ensures FilterVehicles(a + b, t) == FilterVehicles(a + b[..|b| - 1], t) + Kept(b[|b| - 1], t)
    ensures FilterVehicles(b, t) == FilterVehicles(b[..|b| - 1], t) + Kept(b[|b| - 1], t)
    ensures FilterVehicles(a + b[..|b| - 1], t) == FilterVehicles(a, t) + FilterVehicles(b[..|b| - 1], t) ==>
      FilterVehicles(a + b, t) == FilterVehicles(a, t) + FilterVehicles(b, t)
  {
    var init, last := b[..|b| - 1], b[|b| - 1];
    assert b == init + [last];
    assert a + b == (a + init) + [last];
    FilterVehiclesSnoc(a + init, last, t);
    FilterVehiclesSnoc(init, last, t);
    Seqs.ConcatAssoc(FilterVehicles(a, t), FilterVehicles(init, t), Kept(last, t));
  }

  /** `searchVehicles`. */
  function SearchVehicles(cr: CarRentalSystem, t: Option<AutomobileType>): (r: seq<Vehicle>)
  {
    FilterVehicles(OM.Values(cr.vehicles), t)
  }

  /** A vehicle is found exactly when it is filed, available and of the
      type asked for. */
  lemma SearchFindsExactly(cr: CarRentalSystem, t: Option<AutomobileType>, v: Vehicle)
    ensures v in SearchVehicles(cr, t) <==> (exists i :: 0 <= i < |cr.vehicles| && cr.vehicles[i].1 == v) && Matches(v, t)
  {
  }

  /** `CarRental.makeReservation`: refused unless both the barcode and the
      member id are registered; then as the reservation service decides,
      with the registered vehicle and member. */
  function RentalMakeReservation(cr: CarRentalSystem, barcode: Barcode, member: MemberId, start: int, end: int, id: ReservationId)
    : (r: Result<(CarRentalSystem, Reservation), RentalError>)
    ensures !OM.HasKey(cr.vehicles, barcode) || !OM.HasKey(cr.members, member) ==> r == Err(VehicleOrMemberNotFound)
    ensures OM.HasKey(cr.vehicles, barcode) && OM.HasKey(cr.members, member) ==>
              var made := MakeReservation(cr.reservations, OM.Get(cr.vehicles, barcode).value, OM.Get(cr.members, member).value, start, end, id);
              && (r.Ok? <==> made.Ok?)
              && (r.Ok? ==> r.value == (cr.(reservations := made.value.0), made.value.1))
              && (made.Err? ==> r == Err(made.error))
  {
    match (OM.Get(cr.vehicles, barcode), OM.Get(cr.members, member))
    case (Some(v), Some(m)) =>
      (match MakeReservation(cr.reservations, v, m, start, end, id)
       case Ok((reg, res)) => Ok((cr.(reservations := reg), res))
       case Err(e) => Err(e))
    case _ => Err(VehicleOrMemberNotFound)
  }

  /** `returnVehicle`: refused for an unknown barcode; an automobile is made
      available and taken off its reservation; a plain vehicle is left as
      it is. */
  function ReturnVehicle(cr: CarRentalSystem, barcode: Barcode): (r: Result<CarRentalSystem, RentalError>)
    ensures r.Err? <==> !OM.HasKey(cr.vehicles, barcode)
    ensures r.Err? ==> r.error == VehicleNotFound
    ensures r.Ok? ==> r.value.members == cr.members && r.value.reservations == cr.reservations
    ensures r.Ok? ==> forall b :: b != barcode ==> OM.Get(r.value.vehicles, b) == OM.Get(cr.vehicles, b)
    ensures r.Ok? && OM.Get(cr.vehicles, barcode).value.auto.Some? ==>
              OM.Get(r.value.vehicles, barcode) == Some(CompleteReservation(OM.Get(cr.vehicles, barcode).value))
    ensures r.Ok? && OM.Get(cr.vehicles, barcode).value.auto.None? ==> r.value == cr
  {
    match OM.Get(cr.vehicles, barcode)
    case None => Err(VehicleNotFound)
    case Some(v) =>
      if v.auto.None? then Ok(cr)
      else
        var v' := CompleteReservation(v);
        var t := OM.Put(cr.vehicles, barcode, v');
        forall b ensures OM.Get(t, b) == if b == barcode then Some(v') else OM.Get(cr.vehicles, b) {
          OM.PutGet(cr.vehicles, barcode, v', b);
        }
        Ok(cr.(vehicles := t))
  }

  /** A returned automobile shows up in a search for its type again. */
  lemma ReturnedCarIsSearchable(cr: CarRentalSystem, barcode: Barcode)
    requires OM.HasKey(cr.vehicles, barcode) && OM.Get(cr.vehicles, barcode).value.auto.Some?
    ensures var v := OM.Get(cr.vehicles, barcode).value;
      CompleteReservation(v) in SearchVehicles(ReturnVehicle(cr, barcode).value, Some(v.auto.value.kind))
  {
  }
}
