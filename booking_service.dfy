/** The booking-creation rule: look the vehicle up, refuse a missing or
    unavailable one, price the span, insert an "active" booking and return it
    shaped for the client. */
module BookingService {
  import opened Outcomes
  import opened Text
  import opened Calendar
  import opened Store

  /** The vehicle fields copied into a created booking. */
  datatype VehicleSnapshot = VehicleSnapshot(vehicleName: string, dailyRentPrice: int)

  /** The object the service returns: the inserted row with its dates written
      as "YYYY-MM-DD" and a nested vehicle snapshot. */
  datatype BookingView = BookingView(
    id: int,
    customerId: int,
    vehicleId: int,
    rentStartDate: string,
    rentEndDate: string,
    totalPrice: int,
    status: string,
    vehicle: VehicleSnapshot)

  /** The errors createBooking throws, one per guard, plus whatever the datastore throws. */
  datatype BookingError =
    | VehicleNotFound(vehicleId: int)
    | VehicleUnavailable
    | NotBooked
    | StoreFailure(message: string)

  /** The message text of each thrown error. */
  function Message(e: BookingError): string {
    match e
    case VehicleNotFound(id) => "Vehicle bearing id " + IntToString(id) + " doesn't exist."
    case VehicleUnavailable => "The vehicle is already booked."
    case NotBooked => "Failed to book"
    case StoreFailure(message) => message
  }

  predicate IsAvailable(v: Vehicle) {
    v.availabilityStatus == Some("available")
  }

  /** The row the rule asks the datastore to persist, with the id the SERIAL column assigns. */
  function NewRow(id: int, customerId: int, vehicleId: int, start: Date, end: Date, v: Vehicle): BookingRow {
    BookingRow(id, customerId, vehicleId, start, end, DaysBetween(start, end) * v.dailyRentPrice, "active")
  }

  /** The returned object: the row spread, both dates replaced by
      toISOString().slice(0, 10), and the vehicle's name and price added. */
  function Present(row: BookingRow, v: Vehicle): (view: BookingView)
    ensures |view.rentStartDate| == 10 && ParseDate(view.rentStartDate) == Some(row.rentStartDate)
    ensures |view.rentEndDate| == 10 && ParseDate(view.rentEndDate) == Some(row.rentEndDate)
  {
    IsoDatePart(row.rentStartDate);
    IsoDatePart(row.rentEndDate);
    BookingView(
      row.id, row.customerId, row.vehicleId,
      SliceTo(IsoTimestamp(row.rentStartDate), 10),
      SliceTo(IsoTimestamp(row.rentEndDate), 10),
      row.totalPrice, row.status,
      VehicleSnapshot(v.vehicleName, v.dailyRentPrice))
  }

  /** Reads the persisted row back out of a returned object. */
  function RowOf(view: BookingView): Option<BookingRow> {
    match (ParseDate(view.rentStartDate), ParseDate(view.rentEndDate))
    case (Some(start), Some(end)) =>
      Some(BookingRow(view.id, view.customerId, view.vehicleId, start, end, view.totalPrice, view.status))
    case _ => None
  }

  /** What createBooking resolves to, given the vehicles table, the next SERIAL
      value and the datastore's answer to the insert. */
  function CreateOutcome(vehicles: map<int, Vehicle>, nextId: int, customerId: int, vehicleId: int,
                         start: Date, end: Date, reply: InsertReply): Result<BookingView, BookingError>
  {
    if vehicleId !in vehicles then Err(VehicleNotFound(vehicleId))
    else
      var v := vehicles[vehicleId];
      if !IsAvailable(v) then Err(VehicleUnavailable)
      else match reply
        case RowReturned => Ok(Present(NewRow(nextId, customerId, vehicleId, start, end, v), v))
        case NoRowReturned => Err(NotBooked)
        case QueryError(message) => Err(StoreFailure(message))
  }

  /** createBooking: the rule run against the datastore. */
  method CreateBooking(db: Database, customerId: int, vehicleId: int, start: Date, end: Date,
                       reply: InsertReply)
    returns (r: Result<BookingView, BookingError>)
    requires db.Valid()
    modifies db
    ensures db.Valid()
    ensures r == CreateOutcome(old(db.vehicles), old(db.nextId), customerId, vehicleId, start, end, reply)
    ensures db.vehicles == old(db.vehicles)
    ensures r.Ok? ==> vehicleId in db.vehicles
    ensures db.bookings == old(db.bookings)
      + (if r.Ok? then [NewRow(old(db.nextId), customerId, vehicleId, start, end, db.vehicles[vehicleId])] else [])
    ensures db.nextId == old(db.nextId) + (if r.Ok? then 1 else 0)
  {
    var vehicleRows := db.GetVehicleById(vehicleId);
    if |vehicleRows| == 0 {
      return Err(VehicleNotFound(vehicleId));
    }
    var vehicle := vehicleRows[0];
    if !IsAvailable(vehicle) {
      return Err(VehicleUnavailable);
    }
    var days := DaysBetween(start, end);
    var result := db.InsertBooking(customerId, vehicleId, start, end, days * vehicle.dailyRentPrice, "active", reply);
    match result {
      case Thrown(message) =>
        r := Err(StoreFailure(message));
      case Rows(rows) =>
        if |rows| == 0 {
          r := Err(NotBooked);
        } else {
          r := Ok(Present(rows[0], vehicle));
        }
    }
  }

  // ---- Properties of the rule ----

  /** An unknown vehicle id fails with the not-found message naming that id. */
  lemma AbsentVehicleNotFound(vehicles: map<int, Vehicle>, nextId: int, customerId: int, vehicleId: int,
                              start: Date, end: Date, reply: InsertReply)
    requires vehicleId !in vehicles
    ensures CreateOutcome(vehicles, nextId, customerId, vehicleId, start, end, reply) == Err(VehicleNotFound(vehicleId))
    ensures Message(VehicleNotFound(vehicleId)) == "Vehicle bearing id " + IntToString(vehicleId) + " doesn't exist."
  {
  }

  /** A vehicle whose availability_status is anything but "available" (NULL included) is refused. */
  lemma UnavailableVehicleConflict(vehicles: map<int, Vehicle>, nextId: int, customerId: int, vehicleId: int,
                                   start: Date, end: Date, reply: InsertReply)
    requires vehicleId in vehicles && vehicles[vehicleId].availabilityStatus != Some("available")
    ensures CreateOutcome(vehicles, nextId, customerId, vehicleId, start, end, reply) == Err(VehicleUnavailable)
    ensures Message(VehicleUnavailable) == "The vehicle is already booked."
  {
  }

  /** Existence is checked before availability: the conflict error is only
      ever reported for a vehicle that exists, and the not-found error only
      for one that does not, whatever its id spells. */
  lemma ExistenceCheckedFirst(vehicles: map<int, Vehicle>, nextId: int, customerId: int, vehicleId: int,
                              start: Date, end: Date, reply: InsertReply)
    ensures var r := CreateOutcome(vehicles, nextId, customerId, vehicleId, start, end, reply);
      && (r == Err(VehicleUnavailable) ==> vehicleId in vehicles)
      && (r.Err? && r.error.VehicleNotFound? <==> vehicleId !in vehicles)
      && (r.Err? && r.error.VehicleNotFound? ==> r.error.vehicleId == vehicleId)
  {
  }

  /** The zero-row guard: an insert that reports no row fails with "Failed to book". */
  lemma ZeroRowsFailToBook(vehicles: map<int, Vehicle>, nextId: int, customerId: int, vehicleId: int,
                           start: Date, end: Date)
    requires vehicleId in vehicles && IsAvailable(vehicles[vehicleId])
    ensures CreateOutcome(vehicles, nextId, customerId, vehicleId, start, end, NoRowReturned) == Err(NotBooked)
    ensures Message(NotBooked) == "Failed to book"
  {
  }

  /** A booking is created exactly when the vehicle exists, is available and
      the datastore returns the inserted row; the two dates play no part. */
  lemma CreatedIff(vehicles: map<int, Vehicle>, nextId: int, customerId: int, vehicleId: int,
                   start: Date, end: Date, reply: InsertReply)
    ensures CreateOutcome(vehicles, nextId, customerId, vehicleId, start, end, reply).Ok?
        <==> vehicleId in vehicles && IsAvailable(vehicles[vehicleId]) && reply == RowReturned
  {
  }

  /** The created booking: the arguments as given, status "active", the price
      formula, dates as "YYYY-MM-DD" and the vehicle's name and daily price. */
  lemma CreatedBooking(vehicles: map<int, Vehicle>, nextId: int, customerId: int, vehicleId: int,
                       start: Date, end: Date, reply: InsertReply)
    requires vehicleId in vehicles && IsAvailable(vehicles[vehicleId]) && reply == RowReturned
    ensures CreateOutcome(vehicles, nextId, customerId, vehicleId, start, end, reply).Ok?
    ensures var b := CreateOutcome(vehicles, nextId, customerId, vehicleId, start, end, reply).value;
      var v := vehicles[vehicleId];
      && b.id == nextId
      && b.customerId == customerId && b.vehicleId == vehicleId
      && b.rentStartDate == FormatDate(start) && b.rentEndDate == FormatDate(end)
      && b.totalPrice == DaysBetween(start, end) * v.dailyRentPrice
      && b.status == "active"
      && b.vehicle == VehicleSnapshot(v.vehicleName, v.dailyRentPrice)
  {
    IsoDatePart(start);
    IsoDatePart(end);
  }

  /** The returned object carries the inserted row unchanged: reading its
      dates back recovers the row exactly. */
  lemma PresentKeepsRow(row: BookingRow, v: Vehicle)
    ensures RowOf(Present(row, v)) == Some(row)
    ensures Present(row, v).vehicle == VehicleSnapshot(v.vehicleName, v.dailyRentPrice)
  {
  }

  /** No span is rejected: for a positive daily price the total is positive
      when the end follows the start, zero for a same-day booking and
      negative when the end precedes the start. */
  lemma TotalPriceSign(start: Date, end: Date, v: Vehicle)
    requires v.dailyRentPrice > 0
    ensures var total := DaysBetween(start, end) * v.dailyRentPrice;
      && (total > 0 <==> Before(start, end))
      && (total == 0 <==> start == end)
      && (total < 0 <==> Before(end, start))
  {
    DaysBetweenSign(start, end);
    ProductSign(DaysBetween(start, end), v.dailyRentPrice);
  }

  lemma ProductSign(days: int, price: int)
    requires price > 0
    ensures (days * price > 0 <==> days > 0) && (days * price == 0 <==> days == 0)
  {
    if days > 0 {
      assert days * price >= price;
    } else if days < 0 {
      assert days * price <= -price;
    }
  }

  /** A booking of one more day costs one more daily price. */
  lemma TotalPriceNextDay(start: Date, end: Date, v: Vehicle)
    requires end != LastDate
    ensures DaysBetween(start, NextDay(end)) * v.dailyRentPrice == DaysBetween(start, end) * v.dailyRentPrice + v.dailyRentPrice
  {
    NextDayOrdinal(end);
    var days := DaysBetween(start, end);
    assert (days + 1) * v.dailyRentPrice == days * v.dailyRentPrice + v.dailyRentPrice;
  }

  /** Creating a booking does not mark the vehicle booked: against the
      unchanged vehicles table, a second request for the same vehicle, by
      any customer and for any dates, is accepted as well. */
  lemma AvailabilityNotFlipped(vehicles: map<int, Vehicle>, nextId: int, customerId: int, vehicleId: int,
                               start: Date, end: Date, otherCustomer: int, otherStart: Date, otherEnd: Date)
    requires CreateOutcome(vehicles, nextId, customerId, vehicleId, start, end, RowReturned).Ok?
    ensures var again := CreateOutcome(vehicles, nextId + 1, otherCustomer, vehicleId, otherStart, otherEnd, RowReturned);
      again.Ok? && again.value.id == nextId + 1 && again.value.vehicleId == vehicleId
  {
    CreatedIff(vehicles, nextId, customerId, vehicleId, start, end, RowReturned);
  }

  // ---- The documented scenarios ----

  function SampleVehicle(status: string): Vehicle {
    Vehicle(7, "Corolla", Some("car"), 1234, 50, Some(status))
  }

  lemma SampleDates()
    ensures FormatDate(CalendarDate(2024, 1, 1)) == "2024-01-01"
    ensures FormatDate(CalendarDate(2024, 1, 4)) == "2024-01-04"
    ensures DaysBetween(CalendarDate(2024, 1, 1), CalendarDate(2024, 1, 4)) == 3
  {
  }

  /** Vehicle 7 at 50 a day, booked from 2024-01-01 to 2024-01-04, costs 150. */
  lemma ThreeDayBooking()
    ensures var r := CreateOutcome(map[7 := SampleVehicle("available")], 1, 1, 7,
                                   CalendarDate(2024, 1, 1), CalendarDate(2024, 1, 4), RowReturned);
      && r.Ok? && r.value.totalPrice == 150 && r.value.status == "active"
      && r.value.rentStartDate == "2024-01-01" && r.value.rentEndDate == "2024-01-04"
  {
    var start, end := CalendarDate(2024, 1, 1), CalendarDate(2024, 1, 4);
    CreatedBooking(map[7 := SampleVehicle("available")], 1, 1, 7, start, end, RowReturned);
    SampleDates();
  }

  /** The same vehicle once booked is refused; an unknown id is not found. */
  lemma RefusedBookings()
    ensures CreateOutcome(map[7 := SampleVehicle("booked")], 1, 1, 7,
                          CalendarDate(2024, 1, 1), CalendarDate(2024, 1, 4), RowReturned) == Err(VehicleUnavailable)
    ensures CreateOutcome(map[7 := SampleVehicle("available")], 1, 1, 999,
                          CalendarDate(2024, 1, 1), CalendarDate(2024, 1, 4), RowReturned) == Err(VehicleNotFound(999))
  {
  }
}
