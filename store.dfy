/** The relational datastore the booking rule reads and writes: the vehicles
    table (keyed by id) and the bookings table, whose id column is a SERIAL
    that hands out increasing values. */
module Store {
  import opened Outcomes
  import opened Calendar

  /** A row of the vehicles table; type and availability_status are nullable columns. */
  datatype Vehicle = Vehicle(
    id: int,
    vehicleName: string,
    vehicleType: Option<string>,
    registrationNumber: int,
    dailyRentPrice: int,
    availabilityStatus: Option<string>)

  /** A row of the bookings table, whose columns are assumed: the rent dates as DATE columns. */
  datatype BookingRow = BookingRow(
    id: int,
    customerId: int,
    vehicleId: int,
    rentStartDate: Date,
    rentEndDate: Date,
    totalPrice: int,
    status: string)

  /** How the datastore answers an INSERT ... RETURNING *: with the persisted
      row, with zero rows, or by throwing (a violated foreign key on the
      customer, a lost connection) with the driver's message. Which of the
      three happens is decided outside the program, so it is an input. */
  datatype InsertReply = RowReturned | NoRowReturned | QueryError(message: string)

  /** What a query resolves to: its rows (rowCount is their number), or a thrown error. */
  datatype QueryResult<T> = Rows(rows: seq<T>) | Thrown(message: string)

  class Database {
    var vehicles: map<int, Vehicle>
    var bookings: seq<BookingRow>
    var nextId: int

    /** Vehicles are stored under their own id; booking ids increase in
        insertion order and stay below the next SERIAL value. */
    ghost predicate Valid()
      reads this
    {
      && (forall id :: id in vehicles ==> vehicles[id].id == id)
      && (forall i :: 0 <= i < |bookings| ==> bookings[i].id < nextId)
      && (forall i, j :: 0 <= i < j < |bookings| ==> bookings[i].id < bookings[j].id)
    }

    constructor (vehicles: map<int, Vehicle>)
      requires forall id :: id in vehicles ==> vehicles[id].id == id
      ensures Valid()
      ensures this.vehicles == vehicles && bookings == [] && nextId == 1
    {
      this.vehicles := vehicles;
      bookings := [];
      nextId := 1;
    }

    /** SELECT * FROM vehicles WHERE id = $1: zero rows or the one vehicle with that id. */
    method GetVehicleById(id: int) returns (rows: seq<Vehicle>)
      requires Valid()
      ensures |rows| <= 1
      ensures |rows| == 0 <==> id !in vehicles
      ensures forall k :: 0 <= k < |rows| ==> rows[k] == vehicles[id] && rows[k].id == id
    {
      if id in vehicles {
        rows := [vehicles[id]];
      } else {
        rows := [];
      }
    }

    /** INSERT INTO bookings(...) VALUES(...) RETURNING *. */
    method InsertBooking(customerId: int, vehicleId: int, start: Date, end: Date,
                         totalPrice: int, status: string, reply: InsertReply)
      returns (r: QueryResult<BookingRow>)
      requires Valid()
      modifies this
      ensures Valid()
      ensures vehicles == old(vehicles)
      ensures reply == RowReturned ==>
        && r == Rows([BookingRow(old(nextId), customerId, vehicleId, start, end, totalPrice, status)])
        && bookings == old(bookings) + r.rows
        && nextId == old(nextId) + 1
      ensures reply == NoRowReturned ==>
        r == Rows([]) && bookings == old(bookings) && nextId == old(nextId)
      ensures reply.QueryError? ==>
        r == Thrown(reply.message) && bookings == old(bookings) && nextId == old(nextId)
    {
      match reply {
        case RowReturned =>
          var row := BookingRow(nextId, customerId, vehicleId, start, end, totalPrice, status);
          bookings := bookings + [row];
          nextId := nextId + 1;
          r := Rows([row]);
        case NoRowReturned =>
          r := Rows([]);
        case QueryError(message) =>
          r := Thrown(message);
      }
    }
  }
}
