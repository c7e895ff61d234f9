/** The POST /bookings handler: refuse a request with a falsy field, otherwise
    run the booking rule and turn its outcome into a status code and a JSON body. */
module BookingController {
  import opened Outcomes
  import opened Calendar
  import opened Store
  import opened BookingService

  /** A request-body field as JavaScript sees it: absent, one of the falsy
      JSON values null, false and "", or a value of the expected type. */
  datatype Field<T> = Undefined | Null | False | EmptyString | Given(value: T)

  /** `!field` is false: given, and not the number 0. */
  predicate IdTruthy(f: Field<int>) {
    f.Given? && f.value != 0
  }

  /** A given date is never the empty string, so it is always truthy. */
  predicate DateTruthy(f: Field<Date>) {
    f.Given?
  }

  datatype CreateBookingRequest = CreateBookingRequest(
    customerId: Field<int>,
    vehicleId: Field<int>,
    rentStartDate: Field<Date>,
    rentEndDate: Field<Date>)

  predicate InputPresent(req: CreateBookingRequest) {
    IdTruthy(req.customerId) && IdTruthy(req.vehicleId)
    && DateTruthy(req.rentStartDate) && DateTruthy(req.rentEndDate)
  }

  /** The JSON body {success, message, data?}. */
  datatype ResponseBody = ResponseBody(success: bool, message: string, data: Option<BookingView>)

  datatype Response = Response(status: int, body: ResponseBody)

  /** The handler's decision, from the request and what the service returned. */
  function Respond(req: CreateBookingRequest, outcome: Result<BookingView, BookingError>): Response {
    if !InputPresent(req) then Response(400, ResponseBody(false, "Input missing", None))
    else match outcome
      case Ok(booking) => Response(201, ResponseBody(true, "Booking created successfully", Some(booking)))
      case Err(e) => Response(500, ResponseBody(false, Message(e), None))
  }

  /** createBooking: validate, call the service only when every field is present, respond. */
  method CreateBooking(db: Database, req: CreateBookingRequest, reply: InsertReply) returns (resp: Response)
    requires db.Valid()
    modifies db
    ensures db.Valid()
    ensures !InputPresent(req) ==>
      resp == Response(400, ResponseBody(false, "Input missing", None)) && unchanged(db)
    ensures InputPresent(req) ==>
      var outcome := CreateOutcome(old(db.vehicles), old(db.nextId), req.customerId.value, req.vehicleId.value,
                                   req.rentStartDate.value, req.rentEndDate.value, reply);
      && resp == Respond(req, outcome)
      && db.vehicles == old(db.vehicles)
      && db.bookings == old(db.bookings)
           + (if outcome.Ok? then [NewRow(old(db.nextId), req.customerId.value, req.vehicleId.value,
                                          req.rentStartDate.value, req.rentEndDate.value,
                                          db.vehicles[req.vehicleId.value])] else [])
      && db.nextId == old(db.nextId) + (if outcome.Ok? then 1 else 0)
  {
    if !InputPresent(req) {
      return Response(400, ResponseBody(false, "Input missing", None));
    }
    var result := BookingService.CreateBooking(db, req.customerId.value, req.vehicleId.value,
                                               req.rentStartDate.value, req.rentEndDate.value, reply);
    resp := Respond(req, result);
  }

  // ---- Properties of the handler ----

  /** A falsy field gives 400 "Input missing" whatever the service would have
      answered: the response does not depend on it. */
  lemma MissingInputIs400(req: CreateBookingRequest, outcome: Result<BookingView, BookingError>)
    requires !InputPresent(req)
    ensures Respond(req, outcome) == Response(400, ResponseBody(false, "Input missing", None))
  {
  }

  /** The check is for truthiness, not presence: an id of 0 counts as missing. */
  lemma ZeroIdIsMissing(req: CreateBookingRequest, outcome: Result<BookingView, BookingError>)
    requires req.customerId == Given(0) || req.vehicleId == Given(0)
    ensures Respond(req, outcome).status == 400
  {
  }

  /** 201 exactly when every field is present and the service succeeded, and
      then the body carries the service's result unchanged. */
  lemma CreatedIs201(req: CreateBookingRequest, outcome: Result<BookingView, BookingError>)
    ensures Respond(req, outcome).status == 201 <==> InputPresent(req) && outcome.Ok?
    ensures Respond(req, outcome).status == 201 ==>
      Respond(req, outcome).body == ResponseBody(true, "Booking created successfully", Some(outcome.value))
  {
  }

  /** Every service failure becomes 500 with its message; the kinds are not told apart. */
  lemma FailureIs500(req: CreateBookingRequest, e1: BookingError, e2: BookingError)
    requires InputPresent(req)
    ensures Respond(req, Err(e1)) == Response(500, ResponseBody(false, Message(e1), None))
    ensures Respond(req, Err(e1)).status == Respond(req, Err(e2)).status
  {
  }

  /** The handler answers only 201, 400 or 500, and success is reported exactly with 201. */
  lemma StatusCodes(req: CreateBookingRequest, outcome: Result<BookingView, BookingError>)
    ensures Respond(req, outcome).status in {201, 400, 500}
    ensures Respond(req, outcome).body.success <==> Respond(req, outcome).status == 201
    ensures Respond(req, outcome).body.data.Some? <==> Respond(req, outcome).status == 201
  {
  }
}
