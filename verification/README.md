# Sleeper bus seat booking: a Dafny model of the booking registry

This project models the seat-booking registry of the Sleeper Bus Ticket Booking
System API (`main.py`), and proves properties of that model. The bus has 30
sleeper seats: seats 1–15 are on the upper deck and 16–30 on the lower deck.
The server keeps its active bookings in a module-level list. The request
handlers list the seats, book a seat, set the meal on a booking and cancel a
booking.

In the model the list is an explicit value, `Registry = seq<Booking>`. The seat
listing, which cannot fail, is a pure function `ListSeats` from the registry to
the list of seats. Each handler that can fail (booking, meal update and
cancellation) is a pure function from the registry to an `Outcome`. An outcome is
either `Ok(registry, value)`, holding the registry after the request and the
handler's response, or `Err(error)`. An error carries no registry, because every
handler raises before it changes the list. So after an error the registry from
before the call is still the current one.

The error kinds are:

- `SeatConflict`: HTTP 409, the seat already has a booking.
- `BookingNotFound`: HTTP 404, the seat has no booking.
- `InvalidRecord`: see below.

The web framework checks two kinds of constraint before a handler runs: the
request bodies' field constraints, and the range constraint on the cancel
path parameter `seat_id` (main.py:114-115). In the model they are the
handlers' preconditions: `ValidBookRequest` and `ValidMealRequest` for the
bodies, and `ValidSeatId` for the cancel path parameter.

Files:

- `text.dfy`, module `Text`: the Python built-ins the handlers use.
  - `str.strip()`: whitespace is exactly the characters for which
    `str.isspace()` holds.
  - `f"{n:02d}"`: modelled for every integer.
- `booking.dfy`, module `BusBooking`: the records, the helpers and the four
  handlers, plus the start-up seeding.
  - Records: `Booking`, `Seat`, the request bodies and the cancellation
    response.
  - Helpers: `_seat_label`, `_find_booking_index`, `_is_seat_booked`.
  - Invariant: `WellFormed` says each seat has at most one booking, every
    booking is for seat 1..30, and every record is within the `Booking` field
    limits.
- `booking_properties.dfy`, module `BookingProperties`: properties that relate
  several calls.
  - Each handler keeps `WellFormed`.
  - Each handler's effect on the set of booked seats.
  - Meal update and cancellation compared with the independent reference
    definitions `WithMeal` and `WithoutSeat`.
  - The book→cancel and book→meal→cancel round trips.
  - Seat labels read back to their seats.
  - Capacity: a well-formed registry holds at most 30 bookings.
  - The seeded registry.

Points where the code's behaviour is more detailed than a summary of it would
suggest. The model follows the code in each case:

- `book_seat` builds its `Booking` from the stripped name. `Booking` validates
  its own `min_length=2`, so a request name such as `" a"` passes the request
  check but the record built from it is rejected (main.py:23, main.py:93-97).
  The handler does not catch that validation error. The model reports it as
  `Err(InvalidRecord)`, and the registry is unchanged. `ValidRecord` states the
  `Booking` field limits (main.py:23-24). Stripping never lengthens a string, so
  the other `Booking` limits can never fail after it.
- `book_seat` tests whether the meal is empty before stripping it
  (main.py:96). So a meal made only of whitespace is stored as the empty string
  `Some("")`, not as "no meal" (`WhitespaceMealStoredEmpty`).
- `add_meal_to_booking` uses `model_copy`, which does not validate again. A meal
  request of two spaces passes the request check and stores `Some("")`.
- There are no stations or routes in the code: `Booking` has only a seat, a
  name and a meal (main.py:21-24). So there is no route-validation error and no
  station listing.
- A seat id outside 1..30, such as 99, is rejected by request validation before
  any handler runs. So it never reaches `add_meal_to_booking` and never produces
  "not found".

## Model

| member | source | states |
|---|---|---|
| `Text.Strip` | main.py:95 | the result has no whitespace at either end, is no longer than the input, and is a window of the input with only whitespace outside it |
| `Text.StripCharacterized` | main.py:95 | `Strip` is the unique such window: any window with only whitespace outside it and none at its ends is what `Strip` returns |
| `Text.StripIdempotent` | main.py:95 | stripping an already stripped string changes nothing |
| `Text.Decimal` | main.py:44 | decimal digits of a natural number: at least one digit, one digit exactly below 10, two digits exactly for 10..99, no leading zero |
| `Text.ParseDecimalOfDecimal` | main.py:44 | reading the decimal digits of n back gives n |
| `Text.Format02d` | main.py:44 | `02d` formatting: at least two characters; for 0..99 exactly two digits that read back to the number; a negative number starts with its sign |
| `BusBooking.SeatLabel` | main.py:41-44 | for seats 1..30 the label has 3 characters; it starts with `U` exactly for seats 1..15 and with `L` exactly for 16..30; its two digits read back to the seat id (upper deck) or the seat id minus 15 (lower deck) |
| `BookingProperties.SeatLabelRoundTrip` | main.py:41-44 | reading a seat's label back gives the seat |
| `BookingProperties.SeatLabelInjective` | main.py:41-44 | two seats of the bus have the same label exactly when they are the same seat |
| `BusBooking.FindBookingIndex` | main.py:47-51 | returns none exactly when no booking is for the seat; otherwise returns an in-range index holding a booking for the seat, with no booking for that seat before it |
| `BusBooking.IsSeatBooked` | main.py:54-55 | true exactly when some booking is for the seat, i.e. the seat is among the booked seats |
| `BookingProperties.FindIsFirstMatch` | main.py:47-51 | the lookup returns the first index holding the seat, whatever else the registry holds |
| `BookingProperties.FindUnique` | main.py:47-51 | in a registry without duplicate seats the lookup returns the one index holding the seat |
| `BusBooking.SeedBookings` | main.py:63-69 | five seed records, each for a seat of the bus, each within the `Booking` field limits, each with a meal |
| `BusBooking.SeedInitialBookings` | main.py:58-70 | a registry that already has bookings is left as it is; an empty one is seeded with a well-formed registry whose booked seats are exactly 2, 7, 16, 23 and 29 |
| `BookingProperties.SeededListing` | main.py:58-85 | the seeded registry is well formed, and its seat listing shows exactly seats 2, 7, 16, 23 and 29 as booked |
| `BusBooking.ListSeats` | main.py:76-85 | 30 entries; entry k is seat k+1 of type "sleeper" with that seat's label; it is booked exactly when the registry holds a booking for it |
| `BusBooking.BookSeat` | main.py:88-99 | a booked seat gives a conflict; a free seat whose stripped name is too short gives an invalid record; success happens exactly otherwise and appends one record at the end, keeping the earlier entries; the record holds the seat, the stripped name, and the stripped meal if the request's meal is non-empty (otherwise no meal) |
| `BusBooking.RequestedMeal` | main.py:96 | no meal exactly when the request has no meal or an empty one; otherwise the stripped meal |
| `BookingProperties.WhitespaceMealStoredEmpty` | main.py:96 | a non-empty meal made only of whitespace is stored as the empty string, not as no meal |
| `BookingProperties.BookAddsSeat` | main.py:90-98 | a successful booking adds exactly its seat to the booked seats |
| `BookingProperties.BookPreservesWellFormed` | main.py:90-98 | booking keeps the registry well formed; in particular no seat ever gets two bookings |
| `BookingProperties.BookTwiceConflicts` | main.py:90-91 | booking a seat that was just booked is refused with a conflict |
| `BookingProperties.BookShowsInListing` | main.py:76-99 | after a successful booking, the seat listing shows the seat as booked |
| `BusBooking.AddMealToBooking` | main.py:102-111 | fails with not-found exactly when the seat has no booking; otherwise the length is unchanged, and the entry at the first index for the seat keeps its seat and name and gets the stripped meal; every other entry is unchanged |
| `BookingProperties.MealMatchesReference` | main.py:104-110 | without duplicate seats, a meal update equals the reference that sets the meal of the seat's booking and leaves the rest alone |
| `BookingProperties.MealPreservesWellFormed` | main.py:104-110 | a meal update keeps the registry well formed and keeps the set of booked seats |
| `BookingProperties.MealIdempotent` | main.py:108-110 | sending the same meal request twice has the same effect and response as sending it once |
| `BusBooking.CancelBooking` | main.py:114-125 | fails with not-found exactly when the seat has no booking; otherwise one entry shorter; entries before the first index for the seat are kept and later ones move down by one; the response is "cancelled" with the seat and the removed passenger's name |
| `BookingProperties.CancelMatchesReference` | main.py:116-120 | without duplicate seats, cancelling equals the reference that drops the seat's bookings and keeps the order of the rest; afterwards the seat has no booking |
| `BookingProperties.CancelPreservesWellFormed` | main.py:116-120 | cancelling keeps the registry well formed and removes exactly its seat from the booked seats |
| `BookingProperties.CancelSeededSeatTwo` | main.py:114-125 | cancelling seat 2 on the seeded registry reports Riya Shah's cancellation and leaves seat 2 unbooked in the listing |
| `BookingProperties.BookThenCancel` | main.py:93-125 | cancelling a booking just made gives back the registry as it was, and reports the stored (stripped) name |
| `BookingProperties.BookMealCancel` | main.py:88-125 | booking a seat, setting its meal and cancelling it gives back the registry as it was before the booking |
| `BookingProperties.UniqueSeatsCount` | main.py:38 | without duplicate seats there are exactly as many bookings as booked seats |
| `BookingProperties.WellFormedWithinCapacity` | main.py:11 | a well-formed registry never holds more than 30 bookings |

## Left out

- The prediction script (`prediction_model.py`) is not part of this model. It
  is floating-point logistic-regression training on synthetic data, uses
  foreign libraries, and the booking API never calls it.
- Web-framework wiring is left out: routing, `HTTPException` transport,
  response serialisation and the error detail messages. The model keeps only
  the error kinds. Validation of the request bodies and of the cancel path
  parameter answers 422 before a handler runs. It is expressed as
  preconditions.
- Stations, routes, route validation and a station listing are left out
  because the code has none of them.
- Concurrency and process lifetime are left out. The global list is a single
  registry value, and the code has no locking. Seeding at import time is
  `SeedInitialBookings([])`.
- `WellFormed` (at most one booking per seat) is proved only for requests
  handled one at a time. `book_seat` checks whether the seat is booked
  (main.py:90) and appends later (main.py:98), and the two steps are not
  atomic. Two booking requests for the same seat that run at the same time
  could both pass the check and both append. This is a known limitation of the
  code.
- `InvalidRecord`: the model does not say how the web framework reports the
  uncaught validation error. It only says that nothing is stored.
- `BusBooking.SeatLabel`: the function is defined for every integer. Its
  contract only describes seats 1..30, the only ids it is called with.
- `Text.Strip`: whitespace is the fixed set of code points for which Python's
  `str.isspace()` holds. Python strings are sequences of code points, and Dafny
  strings here are sequences of Unicode scalar values. Lone surrogate code
  points, which Python allows and Dafny's `char` does not, are not modelled.
