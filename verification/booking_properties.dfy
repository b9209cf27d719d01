/** Properties of the booking registry that relate several calls: seat labels
    read back to their seats, every handler keeps the registry well formed,
    each handler against an independent reference definition, and the
    book/cancel round trips. */
module BookingProperties {
  import opened Text
  import opened BusBooking

  // ---------------------------------------------------------------------------
  // Seat labels

  /** Reads a seat label back to its seat id; the inverse of `SeatLabel`. */
  function SeatIdOfLabel(seatLabel: string): (r: Option<int>) {
    if |seatLabel| != 3 || (seatLabel[0] != 'U' && seatLabel[0] != 'L') || !AllDigits(seatLabel[1..]) then None
    else
      var position := ParseDecimal(seatLabel[1..]);
      if position < 1 || position > DeckSize then None
      else if seatLabel[0] == 'U' then Some(position)
      else Some(position + DeckSize)
  }

  /** Reading a seat's label back gives the seat. */
  lemma SeatLabelRoundTrip(seatId: int)
    requires ValidSeatId(seatId)
    ensures SeatIdOfLabel(SeatLabel(seatId)) == Some(seatId)
  {
    var r := SeatLabel(seatId);
    assert r[0] == 'U' || r[0] == 'L';
  }

  /** Distinct seats of the bus have distinct labels. */
  lemma SeatLabelInjective(a: int, b: int)
    requires ValidSeatId(a) && ValidSeatId(b)
    ensures SeatLabel(a) == SeatLabel(b) <==> a == b
  {
    SeatLabelRoundTrip(a);
    SeatLabelRoundTrip(b);
  }

  // ---------------------------------------------------------------------------
  // Lookup

  /** The lookup result is pinned down by the first-match property alone. */
  lemma FindIsFirstMatch(reg: Registry, seatId: int, i: nat)
    requires i < |reg| && reg[i].seatId == seatId
    requires forall k | 0 <= k < i :: reg[k].seatId != seatId
    ensures FindBookingIndex(reg, seatId) == Some(i)
  {
    assert FindBookingIndex(reg, seatId).Some?;
  }

  /** In a registry without duplicates, the booking for a seat is found at the
      one index that holds it. */
  lemma FindUnique(reg: Registry, seatId: int, i: nat)
    requires UniqueSeats(reg)
    requires i < |reg| && reg[i].seatId == seatId
    ensures FindBookingIndex(reg, seatId) == Some(i)
  {
    FindIsFirstMatch(reg, seatId, i);
  }

  // ---------------------------------------------------------------------------
  // Reference definitions of the handlers' effect on a well-formed registry

  /** The registry with every booking for `seatId` dropped, order kept. */
  function WithoutSeat(reg: Registry, seatId: int): (r: Registry)
    ensures !HasBooking(r, seatId)
    ensures |r| <= |reg|
  {
    if |reg| == 0 then []
    else if reg[0].seatId == seatId then WithoutSeat(reg[1..], seatId)
    else [reg[0]] + WithoutSeat(reg[1..], seatId)
  }

  /** The registry with the meal of every booking for `seatId` replaced. */
  function WithMeal(reg: Registry, seatId: int, meal: string): (r: Registry)
    ensures |r| == |reg|
    ensures forall k | 0 <= k < |r| :: r[k].seatId == reg[k].seatId
  {
    seq(|reg|, k requires 0 <= k < |reg| =>
      if reg[k].seatId == seatId then reg[k].(mealPreference := Some(meal)) else reg[k])
  }

  lemma {:induction false} WithoutSeatAppend(a: Registry, b: Registry, seatId: int)
    ensures WithoutSeat(a + b, seatId) == WithoutSeat(a, seatId) + WithoutSeat(b, seatId)
  {
    if |a| > 0 {
      assert (a + b)[1..] == a[1..] + b;
      WithoutSeatAppend(a[1..], b, seatId);
    } else {
      assert a + b == b;
    }
  }

  lemma {:induction false} WithoutSeatAbsent(reg: Registry, seatId: int)
    requires !HasBooking(reg, seatId)
    ensures WithoutSeat(reg, seatId) == reg
  {
    if |reg| > 0 {
      assert !HasBooking(reg[1..], seatId) by {
        forall k | 0 <= k < |reg[1..]| ensures reg[1..][k].seatId != seatId {
          assert reg[1..][k] == reg[k + 1];
        }
      }
      WithoutSeatAbsent(reg[1..], seatId);
      assert reg == [reg[0]] + reg[1..];
    }
  }

  // ---------------------------------------------------------------------------
  // Capacity

  /** Without duplicate seats, there are as many bookings as booked seats. */
  lemma {:induction false} UniqueSeatsCount(reg: Registry)
    requires UniqueSeats(reg)
    ensures |BookedSeats(reg)| == |reg|
  {
    if |reg| > 0 {
      var init := reg[..|reg| - 1];
      var last := reg[|reg| - 1];
      assert UniqueSeats(init) by {
        forall i, j | 0 <= i < |init| && 0 <= j < |init| && i != j
          ensures init[i].seatId != init[j].seatId
        {
          assert init[i] == reg[i] && init[j] == reg[j];
        }
      }
      UniqueSeatsCount(init);
      assert last.seatId !in BookedSeats(init) by {
        forall k | 0 <= k < |init| ensures init[k].seatId != last.seatId {
          assert init[k] == reg[k];
        }
      }
      assert BookedSeats(reg) == BookedSeats(init) + {last.seatId} by {
        forall s | s in BookedSeats(reg) ensures s in BookedSeats(init) + {last.seatId} {
          var k :| 0 <= k < |reg| && reg[k].seatId == s;
          if k < |init| { assert init[k] == reg[k]; }
        }
        forall s | s in BookedSeats(init) ensures s in BookedSeats(reg) {
          var k :| 0 <= k < |init| && init[k].seatId == s;
          assert init[k] == reg[k];
        }
      }
    }
  }

  /** A well-formed registry never holds more bookings than the bus has seats. */
  lemma WellFormedWithinCapacity(reg: Registry)
    requires WellFormed(reg)
    ensures |reg| <= TotalSeats
  {
    UniqueSeatsCount(reg);
    var seats := SeatRange(TotalSeats);
    assert BookedSeats(reg) <= seats;
    SubsetSize(BookedSeats(reg), seats);
  }

  /** The seat ids 1..n. */
  function SeatRange(n: nat): (r: set<int>)
    ensures forall s :: s in r <==> 1 <= s <= n
    ensures |r| == n
  {
    if n == 0 then {} else SeatRange(n - 1) + {n}
  }

  lemma SubsetSize(a: set<int>, b: set<int>)
    requires a <= b
    ensures |a| <= |b|
  {
    assert b == a + (b - a);
  }

  // ---------------------------------------------------------------------------
  // Booking

  /** A successful booking adds exactly its seat to the booked seats. */
  lemma BookAddsSeat(reg: Registry, req: BookRequest)
    requires ValidBookRequest(req)
    requires BookSeat(reg, req).Ok?
    ensures BookedSeats(BookSeat(reg, req).registry) == BookedSeats(reg) + {req.seatId}
  {
    var r := BookSeat(reg, req).registry;
    assert r[|reg|].seatId == req.seatId;
    forall s | s in BookedSeats(r) ensures s in BookedSeats(reg) + {req.seatId} {
      var k :| 0 <= k < |r| && r[k].seatId == s;
      if k < |reg| { assert reg[k] == r[k]; }
    }
    forall s | s in BookedSeats(reg) ensures s in BookedSeats(r) {
      var k :| 0 <= k < |reg| && reg[k].seatId == s;
      assert r[k] == reg[k];
    }
  }

  /** Booking keeps the registry well formed; in particular no seat is ever
      booked twice. */
  lemma BookPreservesWellFormed(reg: Registry, req: BookRequest)
    requires WellFormed(reg) && ValidBookRequest(req)
    requires BookSeat(reg, req).Ok?
    ensures WellFormed(BookSeat(reg, req).registry)
  {
    var r := BookSeat(reg, req).registry;
    forall i, j | 0 <= i < |r| && 0 <= j < |r| && i != j
      ensures r[i].seatId != r[j].seatId
    {
      if i == |reg| {
        assert r[j] == reg[j];
      } else if j == |reg| {
        assert r[i] == reg[i];
      } else {
        assert r[i] == reg[i] && r[j] == reg[j];
      }
    }
  }

  /** A meal made only of whitespace is not empty as sent, so it is stored,
      and stored as the empty string rather than as no meal. */
  lemma WhitespaceMealStoredEmpty(meal: string)
    requires meal != [] && WhitespaceBetween(meal, 0, |meal|)
    ensures RequestedMeal(Some(meal)) == Some([])
  {
    assert StrippedAt(meal, 0, 0);
    StripCharacterized(meal, 0, 0);
  }

  /** A second booking of the same seat is refused with a conflict. */
  lemma BookTwiceConflicts(reg: Registry, req: BookRequest, again: BookRequest)
    requires ValidBookRequest(req) && ValidBookRequest(again)
    requires BookSeat(reg, req).Ok? && again.seatId == req.seatId
    ensures BookSeat(BookSeat(reg, req).registry, again) == Err(SeatConflict)
  {
    var r := BookSeat(reg, req).registry;
    assert r[|reg|].seatId == req.seatId;
  }

  /** After a successful booking the seat listing shows the seat as booked. */
  lemma BookShowsInListing(reg: Registry, req: BookRequest)
    requires ValidBookRequest(req)
    requires BookSeat(reg, req).Ok?
    ensures ListSeats(BookSeat(reg, req).registry)[req.seatId - 1].isBooked
  {
    var r := BookSeat(reg, req).registry;
    assert r[|reg|].seatId == req.seatId;
  }

  // ---------------------------------------------------------------------------
  // Meal update

  /** On a registry without duplicate seats, a meal update is the reference
      replacement of that seat's meal, and nothing else changes. */
  lemma MealMatchesReference(reg: Registry, req: MealRequest)
    requires UniqueSeats(reg) && ValidMealRequest(req)
    requires AddMealToBooking(reg, req).Ok?
    ensures AddMealToBooking(reg, req).registry
         == WithMeal(reg, req.seatId, Strip(req.mealPreference))
  {
    var r := AddMealToBooking(reg, req).registry;
    var w := WithMeal(reg, req.seatId, Strip(req.mealPreference));
    var i := FindBookingIndex(reg, req.seatId).value;
    forall k | 0 <= k < |reg| ensures r[k] == w[k] {
      if k != i {
        assert reg[k].seatId != req.seatId;
      }
    }
  }

  /** A meal update keeps the registry well formed and the set of booked seats. */
  lemma MealPreservesWellFormed(reg: Registry, req: MealRequest)
    requires WellFormed(reg) && ValidMealRequest(req)
    requires AddMealToBooking(reg, req).Ok?
    ensures WellFormed(AddMealToBooking(reg, req).registry)
    ensures BookedSeats(AddMealToBooking(reg, req).registry) == BookedSeats(reg)
  {
    var r := AddMealToBooking(reg, req).registry;
    var i := FindBookingIndex(reg, req.seatId).value;
    assert forall k | 0 <= k < |r| :: r[k].seatId == reg[k].seatId;
    assert BookedSeats(r) == BookedSeats(reg);
  }

  /** Setting the same meal twice is the same as setting it once. */
  lemma MealIdempotent(reg: Registry, req: MealRequest)
    requires ValidMealRequest(req)
    requires AddMealToBooking(reg, req).Ok?
    ensures AddMealToBooking(AddMealToBooking(reg, req).registry, req) == AddMealToBooking(reg, req)
  {
    var o := AddMealToBooking(reg, req);
    var i := FindBookingIndex(reg, req.seatId).value;
    FindIsFirstMatch(o.registry, req.seatId, i);
    assert o.registry[i := o.value] == o.registry;
  }

  // ---------------------------------------------------------------------------
  // Cancellation

  /** On a registry without duplicate seats, cancelling removes exactly the
      seat's booking and keeps the others in order. */
  lemma CancelMatchesReference(reg: Registry, seatId: int)
    requires UniqueSeats(reg) && ValidSeatId(seatId)
    requires CancelBooking(reg, seatId).Ok?
    ensures CancelBooking(reg, seatId).registry == WithoutSeat(reg, seatId)
    ensures !HasBooking(CancelBooking(reg, seatId).registry, seatId)
  {
    var r := CancelBooking(reg, seatId).registry;
    var i := FindBookingIndex(reg, seatId).value;
    assert r == reg[..i] + reg[i + 1..];
    assert reg == reg[..i] + ([reg[i]] + reg[i + 1..]);
    WithoutSeatAppend(reg[..i], [reg[i]] + reg[i + 1..], seatId);
    WithoutSeatAppend([reg[i]], reg[i + 1..], seatId);
    WithoutSeatAbsent(reg[..i], seatId);
    var tail := reg[i + 1..];
    assert !HasBooking(tail, seatId) by {
      forall k | 0 <= k < |tail| ensures tail[k].seatId != seatId {
        assert tail[k] == reg[i + 1 + k];
      }
    }
    WithoutSeatAbsent(tail, seatId);
    assert [reg[i]][1..] == [];
  }

  /** Cancelling removes exactly its seat from the booked seats and keeps the
      registry well formed. */
  lemma CancelPreservesWellFormed(reg: Registry, seatId: int)
    requires WellFormed(reg) && ValidSeatId(seatId)
    requires CancelBooking(reg, seatId).Ok?
    ensures WellFormed(CancelBooking(reg, seatId).registry)
    ensures BookedSeats(CancelBooking(reg, seatId).registry) == BookedSeats(reg) - {seatId}
  {
    var r := CancelBooking(reg, seatId).registry;
    var i := FindBookingIndex(reg, seatId).value;
    CancelMatchesReference(reg, seatId);
    forall a, b | 0 <= a < |r| && 0 <= b < |r| && a != b
      ensures r[a].seatId != r[b].seatId
    {
      var a' := if a < i then a else a + 1;
      var b' := if b < i then b else b + 1;
      assert r[a] == reg[a'] && r[b] == reg[b'];
    }
    forall s | s in BookedSeats(reg) - {seatId} ensures s in BookedSeats(r) {
      var k :| 0 <= k < |reg| && reg[k].seatId == s;
      if k < i { assert r[k] == reg[k]; } else { assert r[k - 1] == reg[k]; }
    }
    forall s | s in BookedSeats(r) ensures s in BookedSeats(reg) - {seatId} {
      var k :| 0 <= k < |r| && r[k].seatId == s;
      if k < i { assert r[k] == reg[k]; } else { assert r[k] == reg[k + 1]; }
    }
  }

  // ---------------------------------------------------------------------------
  // Round trips

  /** Cancelling a booking just made gives back the registry as it was before,
      and reports the stored (stripped) name. */
  lemma BookThenCancel(reg: Registry, req: BookRequest)
    requires ValidBookRequest(req)
    requires BookSeat(reg, req).Ok?
    ensures CancelBooking(BookSeat(reg, req).registry, req.seatId)
         == Ok(reg, Cancellation("cancelled", req.seatId, Strip(req.passengerName)))
  {
    var r := BookSeat(reg, req).registry;
    FindIsFirstMatch(r, req.seatId, |reg|);
    assert r[..|reg|] == reg;
  }

  /** Booking a seat, changing its meal and cancelling it gives back the
      registry as it was before the booking. */
  lemma BookMealCancel(reg: Registry, req: BookRequest, meal: MealRequest)
    requires ValidBookRequest(req) && ValidMealRequest(meal)
    requires BookSeat(reg, req).Ok? && meal.seatId == req.seatId
    ensures AddMealToBooking(BookSeat(reg, req).registry, meal).Ok?
    ensures CancelBooking(AddMealToBooking(BookSeat(reg, req).registry, meal).registry, req.seatId).Ok?
    ensures CancelBooking(AddMealToBooking(BookSeat(reg, req).registry, meal).registry, req.seatId).registry
         == reg
  {
    var r1 := BookSeat(reg, req).registry;
    FindIsFirstMatch(r1, req.seatId, |reg|);
    var r2 := AddMealToBooking(r1, meal).registry;
    assert r2[|reg|].seatId == req.seatId;
    FindIsFirstMatch(r2, req.seatId, |reg|);
    assert r2[..|reg|] == reg;
  }

  // ---------------------------------------------------------------------------
  // Seed data

  /** The seeded registry is well formed and lists seats 2, 7, 16, 23 and 29 as booked. */
  lemma SeededListing()
    ensures WellFormed(SeedInitialBookings([]))
    ensures forall k | 0 <= k < TotalSeats ::
      ListSeats(SeedInitialBookings([]))[k].isBooked <==> k + 1 in {2, 7, 16, 23, 29}
  {
    var s := SeedInitialBookings([]);
    forall k | 0 <= k < TotalSeats
      ensures ListSeats(s)[k].isBooked <==> k + 1 in {2, 7, 16, 23, 29}
    {
      assert HasBooking(s, k + 1) <==> k + 1 in BookedSeats(s);
    }
  }

  /** Cancelling seat 2 on the seeded registry returns Riya Shah's booking and
      frees the seat. */
  lemma CancelSeededSeatTwo()
    ensures CancelBooking(SeedInitialBookings([]), 2).Ok?
    ensures CancelBooking(SeedInitialBookings([]), 2).value
         == Cancellation("cancelled", 2, "Riya Shah")
    ensures !ListSeats(CancelBooking(SeedInitialBookings([]), 2).registry)[1].isBooked
  {
    var s := SeedInitialBookings([]);
    FindIsFirstMatch(s, 2, 0);
    CancelMatchesReference(s, 2);
  }
}
