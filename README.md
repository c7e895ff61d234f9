# Booking creation of a vehicle-rental backend, in Dafny

This project models how the rental service creates a booking.

The service rule (`bookingService.createBooking`) runs these steps:
- It looks the vehicle up by id.
- It refuses a vehicle that does not exist.
- It refuses a vehicle whose `availability_status` is not `"available"`.
- It computes the day span between the two rent dates.
- It inserts an `"active"` booking priced at `days * daily_rent_price`.
- It refuses an insert that returns no row.
- It returns the inserted row, with both dates cut to `YYYY-MM-DD` and a
  snapshot of the vehicle's name and daily price added.

The HTTP handler (`bookingController.createBooking`) answers as follows:
- 400 "Input missing" when any of the four body fields is falsy. The service
  is then not called.
- 201 with the service's result when the service succeeds.
- 500 with the error's message for any failure of the service.

Modules, leaf first:
- `Outcomes`: `Option` and `Result`.
- `Text`: decimal digits, and the way JavaScript writes an integer into a
  template literal (`IntToString`), together with its inverse `ParseInt`.
- `Calendar`: valid calendar dates of years 0 to 9999 (the subset type `Date`).
  It also holds the day number `Ordinal`, the span `DaysBetween`, the calendar
  successor `NextDay`, and the `YYYY-MM-DD` writer `FormatDate` with its reader
  `ParseDate`. `IsoTimestamp` is `toISOString()` of a UTC midnight, and
  `SliceTo` is `slice(0, n)`.
- `Store`: the datastore as a class `Database`. It holds the vehicles table
  (`map<int, Vehicle>`), the bookings table (`seq<BookingRow>`) and the next
  value of the bookings' SERIAL id. Its methods are the vehicle lookup and the
  booking insert.
- `BookingService`: the rule. `CreateOutcome` is the pure specification.
  The method `CreateBooking` runs the rule against a `Database` and is proved
  to return `CreateOutcome` and to append exactly the new row on success.
  The lemmas state the guards, the price formula and the shape of the result.
- `BookingController`: request fields with JavaScript truthiness, the pure
  decision `Respond`, and the handler method `CreateBooking`.

Modelling choices:
- Dates reach the service as calendar dates at UTC midnight. For two such
  values, `(end.getTime() - start.getTime()) / 86400000` is an exact integer:
  the difference of their day numbers.
- How the datastore answers the INSERT is an input of type `InsertReply`. It
  can return the row, return no row, or throw with a message.
- The code does not reject spans of zero or fewer days, and it gives every
  service failure the same status code. The model keeps both.
  `TotalPriceSign` shows that a same-day booking costs 0, and that a booking
  whose end precedes its start gets a negative price.
  `FailureIs500` shows that all service failures share status 500.
- The availability flag is never set by this flow. `AvailabilityNotFlipped`
  shows that a second request for the same vehicle is accepted too.

## Model

| member | source | states |
|---|---|---|
| `Text.IntToStringRoundTrip` | src/modules/bookings/booking.service.ts:13 | the id written into the not-found message is its decimal form, and that text reads back as the same id |
| `Text.IntToStringInjective` | src/modules/bookings/booking.service.ts:13 | two ids give the same message text only if they are equal |
| `Calendar.NextDay` | src/modules/bookings/booking.service.ts:22-24 | the calendar successor of a date comes after it in calendar order |
| `Calendar.NextDayOrdinal` | src/modules/bookings/booking.service.ts:22-24 | successive calendar days have day numbers one apart, across month ends, year ends and leap days, so the span counts calendar days |
| `Calendar.OrdinalMonotone` | src/modules/bookings/booking.service.ts:22-24 | a date earlier in the calendar has a smaller day number |
| `Calendar.DaysBetweenSign` | src/modules/bookings/booking.service.ts:22-24 | the span is positive exactly when the end follows the start, zero exactly when the dates are equal, and negative exactly when the end precedes the start |
| `Calendar.FormatDate` | src/modules/bookings/booking.service.ts:44-45 | a date is written as ten characters: digits, with '-' at positions 4 and 7 |
| `Calendar.ParseFormatDate` | src/modules/bookings/booking.service.ts:44-45 | a written date reads back as the same date |
| `Calendar.FormatParseDate` | src/modules/bookings/booking.service.ts:44-45 | any string that reads as a date is exactly that date's written form |
| `Calendar.SliceTo` | src/modules/bookings/booking.service.ts:44-45 | slice(0, n) gives a prefix of length min(n, length) |
| `Calendar.IsoDatePart` | src/modules/bookings/booking.service.ts:44-45 | cutting the ISO timestamp of a date to 10 characters leaves its YYYY-MM-DD form with no time of day, and that form reads back as the same date |
| `Store.Database.GetVehicleById` | src/modules/bookings/booking.service.ts:10-12 | the lookup returns zero rows exactly when no vehicle has the id, else the one vehicle stored under that id |
| `Store.Database.InsertBooking` | src/modules/bookings/booking.service.ts:26-38 | a returned row is appended with the next SERIAL id and the given values; zero rows or a thrown error leave the table as it was; vehicles never change |
| `BookingService.Present` | src/modules/bookings/booking.service.ts:42-50 | both returned dates are ten characters long and read back as the row's dates |
| `BookingService.PresentKeepsRow` | src/modules/bookings/booking.service.ts:42-50 | the returned object gives back the inserted row unchanged, plus exactly the vehicle's name and daily price |
| `BookingService.CreateBooking` | src/modules/bookings/booking.service.ts:4-51 | the method returns what the rule specifies and keeps the table invariant; the vehicles are unchanged; exactly the new row is appended on success and nothing otherwise |
| `BookingService.AbsentVehicleNotFound` | src/modules/bookings/booking.service.ts:10-14 | an unknown vehicle id fails with "Vehicle bearing id <id> doesn't exist." |
| `BookingService.UnavailableVehicleConflict` | src/modules/bookings/booking.service.ts:16-20 | an existing vehicle whose status is not "available" (NULL included) fails with "The vehicle is already booked." |
| `BookingService.ExistenceCheckedFirst` | src/modules/bookings/booking.service.ts:12-20 | the conflict error only arises for an existing vehicle; the not-found error arises exactly for a missing one and names the requested id |
| `BookingService.ZeroRowsFailToBook` | src/modules/bookings/booking.service.ts:40 | an insert that returns no row fails with "Failed to book" |
| `BookingService.CreatedIff` | src/modules/bookings/booking.service.ts:10-40 | a booking is created exactly when the vehicle exists, is available and the insert returns a row; the dates never cause a rejection |
| `BookingService.CreatedBooking` | src/modules/bookings/booking.service.ts:26-50 | the created booking has the SERIAL id, the given customer and vehicle, status "active", total = days * daily price, YYYY-MM-DD dates and the vehicle snapshot |
| `BookingService.TotalPriceSign` | src/modules/bookings/booking.service.ts:22-35 | at a positive daily price, the total is positive, zero or negative as the end follows, equals or precedes the start |
| `BookingService.TotalPriceNextDay` | src/modules/bookings/booking.service.ts:22-35 | moving the end one calendar day later adds exactly one daily price |
| `BookingService.AvailabilityNotFlipped` | src/modules/bookings/booking.service.ts:26-38 | a successful booking leaves the vehicle available, so a further request for it is accepted |
| `BookingService.ThreeDayBooking` | src/modules/bookings/booking.service.ts:4-51 | vehicle 7 at 50 a day, booked 2024-01-01 to 2024-01-04, gives an "active" booking priced 150 with those date strings |
| `BookingService.RefusedBookings` | src/modules/bookings/booking.service.ts:10-20 | the same vehicle marked "booked" is refused with the conflict error; id 999 is not found |
| `BookingController.CreateBooking` | src/modules/bookings/booking.controller.ts:4-31 | a falsy field gives 400 and leaves the datastore untouched; otherwise the response is the decision on the service's outcome, with the service's effect on the datastore: vehicles unchanged, the new row appended and the SERIAL value advanced by one on success, nothing changed on failure |
| `BookingController.MissingInputIs400` | src/modules/bookings/booking.controller.ts:9-10 | any falsy field gives 400 "Input missing", whatever the service would answer |
| `BookingController.ZeroIdIsMissing` | src/modules/bookings/booking.controller.ts:9 | a customer or vehicle id of 0 is treated as missing |
| `BookingController.CreatedIs201` | src/modules/bookings/booking.controller.ts:20-26 | the status is 201 exactly when all fields are present and the service succeeded, and then the body is success with the service's result as data |
| `BookingController.FailureIs500` | src/modules/bookings/booking.controller.ts:28-29 | every service failure gives 500 with its message, whatever the error kind |
| `BookingController.StatusCodes` | src/modules/bookings/booking.controller.ts:4-31 | the only codes are 201, 400 and 500, and success or data are present exactly with 201 |

## Left out

- Reading date strings is not modelled. JavaScript's `new Date(...)` and the database both parse the text, and the model starts from calendar dates instead. The bookings table is not created in the code shown, so its columns (rent dates as DATE, as `Store.BookingRow` has them) are assumed.
- Date strings that are not dates are not modelled. In the code they give a NaN or rolled-over price and a database error.
- Date strings with a time of day are not modelled. In the code they give fractional day spans.
- `DaysBetween` replaces the floating-point division of booking.service.ts:24 with an integer difference. The two agree for UTC midnights.
- Time zones are not modelled, and the server is taken to run in UTC. node-postgres reads a DATE as local midnight, so elsewhere `toISOString()` can move the date by a day.
- Years outside 0 to 9999 are not modelled. For them `toISOString()` uses a six-digit signed year.
- Year 0 is a valid `Date`, but Postgres rejects the date 0000-01-01, so for it only `QueryError` is a realistic datastore answer; the model does not force that.
- Integer widths are not modelled: ids, prices and totals are unbounded. The code has JavaScript numbers and a 32-bit INTEGER `daily_rent_price` column (src/config/db.ts:25), so overflow is out of scope.
- Request fields of other JSON types are not modelled. This covers `true`, an id sent as a string, and a non-date string.
- `vehicleServices.getVehicleById` is not part of this model. It is modelled as a lookup in the vehicles map that cannot fail.
- `Store.Database.InsertBooking`: which answer the datastore gives is an input. Foreign-key violations, lost connections and their messages come from Postgres.
- `Store.Database.InsertBooking`: the SERIAL value advances only when a row is inserted. Sequence gaps after failed inserts are not modelled.
- Concurrency is not modelled: the `await` points and the race between the availability check and the insert (double booking by parallel requests).
- Express routing, the pool, the dotenv configuration, the table DDL and `listen` are plumbing (src/app.ts, src/server.ts, src/config/index.ts, src/config/db.ts).
- Booking listing and status updates are not modelled. They are not in the code shown.
