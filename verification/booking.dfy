/** The in-memory seat-booking registry of the sleeper-bus API (main.py).

    The module-level `bookings` list becomes an explicit value of type
    `Registry`. The seat listing is a pure function of the registry; each
    handler that can fail is a pure function from the registry before the
    request to an `Outcome`: either the registry after the request together
    with the handler's response, or the error the handler raises. The
    constraints the web framework checks before a handler runs (request-body
    fields, and the cancel path parameter's range) are the handlers'
    preconditions. */
module BusBooking {
  import opened Text

  const TotalSeats := 30
  /** Seats 1..DeckSize are on the upper deck, the rest on the lower deck. */
  const DeckSize := 15

  const MinNameLength := 2
  const MaxNameLength := 80
  const MinMealRequestLength := 2
  const MaxMealLength := 60

  datatype Option<+T> = None | Some(value: T)

  /** A stored reservation. */
  datatype Booking = Booking(seatId: int, passengerName: string, mealPreference: Option<string>)

  /** One entry of the seat listing; `seatType` is always "sleeper". */
  datatype Seat = Seat(seatId: int, seatLabel: string, seatType: string, isBooked: bool)

  /** Body of a booking request. */
  datatype BookRequest = BookRequest(seatId: int, passengerName: string, mealPreference: Option<string>)

  /** Body of a meal request. */
  datatype MealRequest = MealRequest(seatId: int, mealPreference: string)

  /** Response of a successful cancellation. */
  datatype Cancellation = Cancellation(status: string, seatId: int, passengerName: string)

  datatype Error =
    | SeatConflict     // HTTP 409, "Seat is already booked"
    | BookingNotFound  // HTTP 404, no booking for the seat
    | InvalidRecord    // the record to be stored breaks the Booking field constraints;
                       // raised as an uncaught validation error, not as an HTTP error

  /** The registry after a request and the handler's response, or the error it raised. */
  datatype Outcome<+T> = Ok(registry: Registry, value: T) | Err(error: Error)

  /** The active bookings, in the order they were made. */
  type Registry = seq<Booking>

  predicate ValidSeatId(seatId: int) {
    1 <= seatId <= TotalSeats
  }

  /** The field constraints of a `BookRequest`. */
  predicate ValidBookRequest(req: BookRequest) {
    && ValidSeatId(req.seatId)
    && MinNameLength <= |req.passengerName| <= MaxNameLength
    && (req.mealPreference.Some? ==> |req.mealPreference.value| <= MaxMealLength)
  }

  /** The field constraints of a `MealRequest`. */
  predicate ValidMealRequest(req: MealRequest) {
    && ValidSeatId(req.seatId)
    && MinMealRequestLength <= |req.mealPreference| <= MaxMealLength
  }

  /** The field constraints a `Booking` is validated against when it is built. */
  predicate ValidRecord(b: Booking) {
    && MinNameLength <= |b.passengerName| <= MaxNameLength
    && (b.mealPreference.Some? ==> |b.mealPreference.value| <= MaxMealLength)
  }

  /** Some booking in `reg` is for seat `seatId`. */
  ghost predicate HasBooking(reg: Registry, seatId: int) {
    exists k | 0 <= k < |reg| :: reg[k].seatId == seatId
  }

  /** The seats that have an active booking. */
  ghost function BookedSeats(reg: Registry): set<int> {
    set k | 0 <= k < |reg| :: reg[k].seatId
  }

  /** At most one booking per seat. */
  ghost predicate UniqueSeats(reg: Registry) {
    forall i, j | 0 <= i < |reg| && 0 <= j < |reg| && i != j :: reg[i].seatId != reg[j].seatId
  }

  /** The invariant every reachable registry keeps: at most one booking per
      seat, every booking for a seat of the bus, every record within the
      field constraints. */
  ghost predicate WellFormed(reg: Registry) {
    && UniqueSeats(reg)
    && (forall k | 0 <= k < |reg| :: ValidSeatId(reg[k].seatId) && ValidRecord(reg[k]))
  }

  /** The deck letter followed by the two-digit position within the deck. */
  function SeatLabel(seatId: int): (r: string)
    ensures ValidSeatId(seatId) ==> |r| == 3
    ensures ValidSeatId(seatId) ==> (r[0] == 'U' <==> seatId <= DeckSize)
    ensures ValidSeatId(seatId) ==> (r[0] == 'L' <==> seatId > DeckSize)
    ensures ValidSeatId(seatId) ==> AllDigits(r[1..])
    ensures 1 <= seatId <= DeckSize ==> ParseDecimal(r[1..]) == seatId
    ensures DeckSize < seatId <= TotalSeats ==> ParseDecimal(r[1..]) == seatId - DeckSize
  {
    var deck := if seatId <= DeckSize then "U" else "L";
    var position := if seatId <= DeckSize then seatId else seatId - DeckSize;
    deck + Format02d(position)
  }

  /** The index of the first booking for `seatId`, or None when there is none. */
  function FindBookingIndex(reg: Registry, seatId: int): (r: Option<nat>)
    ensures r.None? <==> !HasBooking(reg, seatId)
    ensures r.Some? ==> r.value < |reg| && reg[r.value].seatId == seatId
    ensures r.Some? ==> forall k | 0 <= k < r.value :: reg[k].seatId != seatId
  {
    if |reg| == 0 then None
    else if reg[0].seatId == seatId then Some(0)
    else
      match FindBookingIndex(reg[1..], seatId)
      case None => None
      case Some(k) => Some(k + 1)
  }

  function IsSeatBooked(reg: Registry, seatId: int): (r: bool)
    ensures r <==> HasBooking(reg, seatId)
    ensures r <==> seatId in BookedSeats(reg)
  {
    FindBookingIndex(reg, seatId).Some?
  }

  /** The bookings the registry is seeded with at start-up. */
  function SeedBookings(): (r: Registry)
    ensures |r| == 5
    ensures forall k | 0 <= k < |r| :: ValidSeatId(r[k].seatId) && ValidRecord(r[k]) && r[k].mealPreference.Some?
  {
    [ Booking(2, "Riya Shah", Some("Vegetarian")),
      Booking(7, "Aarav Mehta", Some("Jain")),
      Booking(16, "Neha Patel", Some("Vegetarian")),
      Booking(23, "Kabir Desai", Some("Non-Vegetarian")),
      Booking(29, "Ishita Joshi", Some("Vegetarian")) ]
  }

  /** Seeds an empty registry; a registry that already holds bookings is kept. */
  function SeedInitialBookings(reg: Registry): (r: Registry)
    ensures |reg| > 0 ==> r == reg
    ensures |reg| == 0 ==> WellFormed(r) && BookedSeats(r) == {2, 7, 16, 23, 29}
  {
    if |reg| > 0 then reg
    else
      var s := SeedBookings();
      assert BookedSeats(s) == {s[0].seatId, s[1].seatId, s[2].seatId, s[3].seatId, s[4].seatId};
      s
  }

  /** All seats of the bus in seat-id order, each with its label and whether it is booked. */
  function ListSeats(reg: Registry): (r: seq<Seat>)
    ensures |r| == TotalSeats
    ensures forall k | 0 <= k < |r| :: r[k].seatId == k + 1 && r[k].seatType == "sleeper"
    ensures forall k | 0 <= k < |r| :: r[k].seatLabel == SeatLabel(k + 1)
    ensures forall k | 0 <= k < |r| :: r[k].isBooked <==> HasBooking(reg, k + 1)
  {
    seq(TotalSeats, k requires 0 <= k < TotalSeats =>
      Seat(k + 1, SeatLabel(k + 1), "sleeper", IsSeatBooked(reg, k + 1)))
  }

  /** The meal stored by a booking request: the stripped meal when the request
      carries a non-empty one, otherwise none. The emptiness test is made on the
      meal as sent, before stripping. */
  function RequestedMeal(meal: Option<string>): (r: Option<string>)
    ensures r.None? <==> meal.None? || meal.value == []
    ensures r.Some? ==> r.value == Strip(meal.value)
  {
    if meal.Some? && meal.value != [] then Some(Strip(meal.value)) else None
  }

  /** Books a free seat for a passenger. The record is built from the stripped
      name and validated against the `Booking` field limits; since stripping
      never lengthens a string, only the name's minimum length can fail there. */
  function BookSeat(reg: Registry, req: BookRequest): (r: Outcome<Booking>)
    requires ValidBookRequest(req)
    ensures HasBooking(reg, req.seatId) ==> r == Err(SeatConflict)
    ensures !HasBooking(reg, req.seatId) && |Strip(req.passengerName)| < MinNameLength
      ==> r == Err(InvalidRecord)
    ensures r.Ok? <==> !HasBooking(reg, req.seatId) && |Strip(req.passengerName)| >= MinNameLength
    ensures r.Ok? ==> r.registry == reg + [r.value]
    ensures r.Ok? ==> r.value.seatId == req.seatId
    ensures r.Ok? ==> r.value.passengerName == Strip(req.passengerName)
    ensures r.Ok? ==> r.value.mealPreference == RequestedMeal(req.mealPreference)
    ensures r.Ok? ==> ValidRecord(r.value)
  {
    if IsSeatBooked(reg, req.seatId) then Err(SeatConflict)
    else
      var booking := Booking(req.seatId, Strip(req.passengerName), RequestedMeal(req.mealPreference));
      if !ValidRecord(booking) then Err(InvalidRecord)
      else Ok(reg + [booking], booking)
  }

  /** Sets the meal of the booking for a seat. */
  function AddMealToBooking(reg: Registry, req: MealRequest): (r: Outcome<Booking>)
    requires ValidMealRequest(req)
    ensures r.Err? <==> !HasBooking(reg, req.seatId)
    ensures r.Err? ==> r.error == BookingNotFound
    ensures r.Ok? ==> |r.registry| == |reg|
    ensures r.Ok? ==> r.value.seatId == req.seatId
    ensures r.Ok? ==> r.value.mealPreference == Some(Strip(req.mealPreference))
    ensures r.Ok? ==> forall k | 0 <= k < |reg| ::
      if k == FindBookingIndex(reg, req.seatId).value
      then r.registry[k] == r.value && r.value.passengerName == reg[k].passengerName
      else r.registry[k] == reg[k]
  {
    match FindBookingIndex(reg, req.seatId)
    case None => Err(BookingNotFound)
    case Some(i) =>
      var updated := reg[i].(mealPreference := Some(Strip(req.mealPreference)));
      Ok(reg[i := updated], updated)
  }

  /** Cancels the booking for a seat. */
  function CancelBooking(reg: Registry, seatId: int): (r: Outcome<Cancellation>)
    requires ValidSeatId(seatId)
    ensures r.Err? <==> !HasBooking(reg, seatId)
    ensures r.Err? ==> r.error == BookingNotFound
    ensures r.Ok? ==> |r.registry| == |reg| - 1
    ensures r.Ok? ==> var i := FindBookingIndex(reg, seatId).value;
      && (forall k | 0 <= k < |r.registry| :: r.registry[k] == if k < i then reg[k] else reg[k + 1])
      && r.value == Cancellation("cancelled", seatId, reg[i].passengerName)
  {
    match FindBookingIndex(reg, seatId)
    case None => Err(BookingNotFound)
    case Some(i) =>
      Ok(reg[..i] + reg[i + 1..], Cancellation("cancelled", seatId, reg[i].passengerName))
  }
}
