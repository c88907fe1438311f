/** GenericTicketService (seats.services): the ticket service that finds and
    holds the best seats through a seat locator, records the hold with a seat
    holding service, and reserves the seats of a hold for its customer. The
    locator and holding service are the two implementations of the core
    (ComparatorBasedSeatLocatorService, ExpiringTransientSeatHoldingService).
    The confirmation code is a parameter (the source draws a random UUID),
    as is the creation time of a new hold. */
module TicketService {
  import opened Common
  import opened Seats
  import opened SeatHolds
  import opened Venues
  import opened SeatLocator
  import opened SeatHolding

  /** Every seat of the list is held or reserved for the given e-mail, and
      there is at least one. */
  predicate AllHeldBy(email: Option<string>, seats: seq<Seat>) {
    seats != [] && email.Some? && forall k :: 0 <= k < |seats| ==> CustomerEmailAddress(seats[k]) == email
  }

  /** Some seat of the list is open, so it carries no e-mail (null). */
  predicate AnyOpen(seats: seq<Seat>) {
    exists k :: 0 <= k < |seats| && seats[k].status.Open?
  }

  /** Two different elements make a set of at least two. */
  lemma TwoElements(s: set<string>, a: string, b: string)
    requires a in s && b in s && a != b
    ensures |s| > 1
  {
    var rest := s - {a, b};
    assert s == {a, b} + rest;
    assert {a, b} * rest == {};
  }

  /** The hold request before any seat is sought: the customer's e-mail and
      the number of seats asked for on a new hold. */
  function Request(numSeats: int, email: Option<string>, now: int): (h: SeatHold)
    ensures h.customerEmailAddress == email && h.numberOfSeatsRequested == numSeats
    ensures h.seatsHeld == [] && h.numberOfSeatsHeld == 0 && h.status.None? && h.creationTime == now
  {
    NewSeatHold(now).(customerEmailAddress := email, numberOfSeatsRequested := numSeats)
  }

  /** The seats of the list as they are once held for the e-mail. */
  function HeldCopies(seats: seq<Seat>, email: string): (r: seq<Seat>)
    ensures |r| == |seats|
    ensures forall k :: 0 <= k < |r| ==> PosOf(r[k]) == PosOf(seats[k]) && r[k].status == Held(email)
    ensures forall k :: 0 <= k < |r| ==> r[k] == seats[k].(status := Held(email))
  {
    if seats == [] then [] else [seats[0].(status := Held(email))] + HeldCopies(seats[1..], email)
  }

  /** The hold findAndHoldSeats answers for what the locator answered: the
      located seats, now held, on success; the failure kind and its message
      when the locator rejects the count or finds too few open seats; any
      other exception passes through. */
  function Answer(request: SeatHold, located: Result<seq<Seat>>, email: string): (r: Result<SeatHold>)
    ensures r.Err? <==> located.Err? && !located.error.InsufficientAvailableSeats? && !located.error.IllegalArgument?
    ensures r.Err? ==> r.error == located.error
    ensures r.Ok? ==> r.value.status.Some? && (r.value.status == Some(Success) <==> located.Ok?)
    ensures r.Ok? ==> r.value.id == request.id && r.value.customerEmailAddress == request.customerEmailAddress
                      && r.value.numberOfSeatsRequested == request.numberOfSeatsRequested
                      && r.value.creationTime == request.creationTime
    ensures located.Ok? ==> |r.value.seatsHeld| == |located.value| == r.value.numberOfSeatsHeld
                            && forall k :: 0 <= k < |located.value| ==>
                                 PosOf(r.value.seatsHeld[k]) == PosOf(located.value[k]) && r.value.seatsHeld[k].status == Held(email)
    ensures located.Err? && located.error.InsufficientAvailableSeats? ==>
              r == Ok(request.(status := Some(FailureDueToInsufficientOpenSeats), statusDetails := Some(located.error.message)))
    ensures located.Err? && located.error.IllegalArgument? ==>
              r == Ok(request.(status := Some(FailureDueToInvalidParameters), statusDetails := Some(located.error.message)))
  {
    match located
    case Ok(seats) =>
      Ok(request.(status := Some(Success), seatsHeld := HeldCopies(seats, email), numberOfSeatsHeld := |seats|))
    case Err(InsufficientAvailableSeats(message)) =>
      Ok(request.(status := Some(FailureDueToInsufficientOpenSeats), statusDetails := Some(message)))
    case Err(IllegalArgument(message)) =>
      Ok(request.(status := Some(FailureDueToInvalidParameters), statusDetails := Some(message)))
    case Err(e) => Err(e)
  }

  /** The seats of the list as the venue holds them now. */
  function LiveSeats(venue: Venue, seats: seq<Seat>): (r: seq<Seat>)
    reads venue
    requires forall k :: 0 <= k < |seats| ==> venue.HasSeat(PosOf(seats[k]))
    ensures |r| == |seats|
    ensures forall k :: 0 <= k < |seats| ==> r[k] == venue.SeatAt(PosOf(seats[k]))
  {
    if seats == [] then [] else [venue.SeatAt(PosOf(seats[0]))] + LiveSeats(venue, seats[1..])
  }

  /** Every seat of the list is the open seat the grid stores at its own
      coordinates, within the venue's dimensions. */
  predicate OpenSeatsIn(m: Grid, rowCount: int, rowSeatCount: int, seats: seq<Seat>) {
    forall k :: 0 <= k < |seats| ==>
      InBounds(rowCount, rowSeatCount, PosOf(seats[k])) && InGrid(m, PosOf(seats[k]))
      && m[seats[k].rowNumber][seats[k].seatNumber - 1] == seats[k] && seats[k].status.Open?
  }

  /** In a list of seats at distinct coordinates, no seat shares its
      coordinates with a seat before it. */
  lemma FreshPosition(seats: seq<Seat>, i: int)
    requires DistinctPositions(seats) && 0 <= i < |seats|
    ensures PosOf(seats[i]) !in Positions(seats[..i])
  {
    forall q | q in Positions(seats[..i])
      ensures q != PosOf(seats[i])
    {
      var j :| 0 <= j < |seats[..i]| && PosOf(seats[..i][j]) == q;
      assert PosOf(seats[j]) != PosOf(seats[i]);
    }
  }

  /** One pass of the hold loop: holding the next seat extends the round of
      holds by its position and removes one open seat. */
  lemma HoldStep(m0: Grid, m: Grid, rowCount: int, rowSeatCount: int, seats: seq<Seat>, i: int, email: string)
    requires 0 <= i < |seats| && WellFormedGrid(m, rowCount, rowSeatCount)
    requires DistinctPositions(seats) && OpenSeatsIn(m0, rowCount, rowSeatCount, seats)
    requires Applied(m0, m, Positions(seats[..i]), HoldOp(email))
    ensures var m' := ApplyAt(m, PosOf(seats[i]), HoldOp(email));
            WellFormedGrid(m', rowCount, rowSeatCount)
            && Applied(m0, m', Positions(seats[..i + 1]), HoldOp(email))
            && |OpenSeatsFrom(m', 1, rowCount)| == |OpenSeatsFrom(m, 1, rowCount)| - 1
  {
    var p := PosOf(seats[i]);
    FreshPosition(seats, i);
    assert m[p.row][p.seat - 1] == seats[i];
    HoldRemovesOneOpenSeat(m, rowCount, rowSeatCount, p, email);
    AppliedStep(m0, m, Positions(seats[..i]), HoldOp(email), p);
    ApplyAtKeepsWellFormed(m, rowCount, rowSeatCount, p, HoldOp(email));
    assert seats[..i + 1] == seats[..i] + [seats[i]];
    PositionsSnoc(seats[..i], seats[i]);
  }

  /** After the round of holds every listed seat is held for the e-mail. */
  lemma HeldAfterRound(m0: Grid, m1: Grid, rowCount: int, rowSeatCount: int, seats: seq<Seat>, email: string)
    requires OpenSeatsIn(m0, rowCount, rowSeatCount, seats)
    requires Applied(m0, m1, Positions(seats), HoldOp(email))
    ensures forall k :: 0 <= k < |seats| ==>
              InGrid(m1, PosOf(seats[k])) && m1[seats[k].rowNumber][seats[k].seatNumber - 1] == seats[k].(status := Held(email))
  {
    forall k | 0 <= k < |seats|
      ensures InGrid(m1, PosOf(seats[k])) && m1[seats[k].rowNumber][seats[k].seatNumber - 1] == seats[k].(status := Held(email))
    {
      var r := seats[k].rowNumber;
      var i := seats[k].seatNumber - 1;
      assert Pos(r, i + 1) == PosOf(seats[k]);
    }
  }

  /** The hold loop of findAndHoldSeats: Seat.hold(email) on every located
      seat. The seats are distinct open seats of the venue, so each is held
      once and the number of open seats drops by one per seat. */
  method HoldAll(venue: Venue, seats: seq<Seat>, email: string)
    requires venue.WellFormed() && DistinctPositions(seats)
    requires forall k :: 0 <= k < |seats| ==>
               venue.HasSeat(PosOf(seats[k])) && venue.SeatAt(PosOf(seats[k])) == seats[k] && seats[k].status.Open?
    modifies venue`seatsByRow
    ensures venue.WellFormed()
    ensures Applied(old(venue.seatsByRow), venue.seatsByRow, Positions(seats), HoldOp(email))
    ensures |venue.GetOpenSeats()| == old(|venue.GetOpenSeats()|) - |seats|
    ensures forall k :: 0 <= k < |seats| ==>
              venue.HasSeat(PosOf(seats[k])) && venue.SeatAt(PosOf(seats[k])) == seats[k].(status := Held(email))
  {
    ghost var m0 := venue.seatsByRow;
    assert OpenSeatsIn(m0, venue.rowCount, venue.rowSeatCount, seats);
    HoldRound(venue, seats, email);
    HeldAfterRound(m0, venue.seatsByRow, venue.rowCount, venue.rowSeatCount, seats, email);
  }

  /** The loop of HoldAll, stated on the venue's grid. */
  method HoldRound(venue: Venue, seats: seq<Seat>, email: string)
    requires WellFormedGrid(venue.seatsByRow, venue.rowCount, venue.rowSeatCount) && DistinctPositions(seats)
    requires OpenSeatsIn(venue.seatsByRow, venue.rowCount, venue.rowSeatCount, seats)
    modifies venue`seatsByRow
    ensures WellFormedGrid(venue.seatsByRow, venue.rowCount, venue.rowSeatCount)
    ensures Applied(old(venue.seatsByRow), venue.seatsByRow, Positions(seats), HoldOp(email))
    ensures |OpenSeatsFrom(venue.seatsByRow, 1, venue.rowCount)| == |OpenSeatsFrom(old(venue.seatsByRow), 1, venue.rowCount)| - |seats|
  {
    ghost var m0 := venue.seatsByRow;
    AppliedNothing(m0, HoldOp(email));
    var i := 0;
    while i < |seats|
      invariant 0 <= i <= |seats|
      invariant WellFormedGrid(venue.seatsByRow, venue.rowCount, venue.rowSeatCount)
      invariant Applied(m0, venue.seatsByRow, Positions(seats[..i]), HoldOp(email))
      invariant |OpenSeatsFrom(venue.seatsByRow, 1, venue.rowCount)| == |OpenSeatsFrom(m0, 1, venue.rowCount)| - i
    {
      HoldStep(m0, venue.seatsByRow, venue.rowCount, venue.rowSeatCount, seats, i, email);
      venue.HoldSeatObject(seats[i], email);
      i := i + 1;
    }
    assert seats[..i] == seats;
  }

  /** Once the located seats are held, the seats the answer lists are the
      venue's own seats as they now are. */
  lemma HeldCopiesAreVenueSeats(venue: Venue, located: seq<Seat>, email: string)
    requires forall k :: 0 <= k < |located| ==>
               venue.HasSeat(PosOf(located[k])) && venue.SeatAt(PosOf(located[k])) == located[k].(status := Held(email))
    ensures var held := HeldCopies(located, email);
            StoredIn(venue.seatsByRow, venue.rowCount, venue.rowSeatCount, held)
            && forall k :: 0 <= k < |held| ==> venue.HasSeat(PosOf(held[k])) && venue.SeatAt(PosOf(held[k])) == held[k]
  {
  }

  /** One pass of the reserve loop: the round extends by the next seat's
      position, and which positions are stored does not change. */
  lemma ReserveStep(m0: Grid, m: Grid, m': Grid, seats: seq<Seat>, j: int, op: SeatOp)
    requires 0 <= j < |seats| && Applied(m0, m, Positions(seats[..j]), op)
    requires m' == ApplyAt(m, PosOf(seats[j]), op)
    ensures Applied(m0, m', Positions(seats[..j + 1]), op)
    ensures forall p :: InGrid(m, p) <==> InGrid(m', p)
  {
    AppliedStep(m0, m, Positions(seats[..j]), op, PosOf(seats[j]));
    assert seats[..j + 1] == seats[..j] + [seats[j]];
    PositionsSnoc(seats[..j], seats[j]);
  }

  /** The reserve loop of reserveSeats: venue.reserveSeat(row, seat, email)
      on every seat of the hold. An IllegalArgumentException (a blank e-mail;
      the coordinates all name seats) ends it before any change; a seat that
      cannot be reserved (SeatUnavailableException) is skipped. */
  method ReserveAll(venue: Venue, seats: seq<Seat>, email: Option<string>) returns (o: Outcome)
    requires forall k :: 0 <= k < |seats| ==> venue.HasSeat(PosOf(seats[k]))
    modifies venue`seatsByRow
    ensures o.Fail? <==> seats != [] && IsBlank(email)
    ensures o.Fail? ==> o == Fail(IllegalArgument(EMAIL_ADDRESS_IS_NULL_OR_BLANK))
    ensures o.Fail? || seats == [] ==> venue.seatsByRow == old(venue.seatsByRow)
    ensures o.Pass? && seats != [] ==>
              Applied(old(venue.seatsByRow), venue.seatsByRow, Positions(seats), ReserveOp(email.value))
  {
    ghost var m0 := venue.seatsByRow;
    var j := 0;
    while j < |seats|
      invariant 0 <= j <= |seats|
      invariant j > 0 ==> !IsBlank(email)
      invariant j == 0 ==> venue.seatsByRow == m0
      invariant j > 0 ==> Applied(m0, venue.seatsByRow, Positions(seats[..j]), ReserveOp(email.value))
      invariant forall k :: 0 <= k < |seats| ==> venue.HasSeat(PosOf(seats[k]))
    {
      var p := PosOf(seats[j]);
      ghost var before := venue.seatsByRow;
      var reserved := venue.ReserveSeat(p.row, p.seat, email);
      if reserved.Fail? && reserved.error.IllegalArgument? {
        return reserved;
      }
      if j == 0 {
        AppliedNothing(m0, ReserveOp(email.value));
      }
      ReserveStep(m0, before, venue.seatsByRow, seats, j, ReserveOp(email.value));
      j := j + 1;
    }
    if seats != [] {
      assert seats[..j] == seats;
    }
    return Pass;
  }

  /** After a round of reservations for `email` over seats that were all held
      or reserved for it, every one of them is reserved for it. */
  lemma ReservedAfterRound(venue: Venue, m0: Grid, seats: seq<Seat>, live: seq<Seat>, email: string)
    requires StoredIn(m0, venue.rowCount, venue.rowSeatCount, seats) && |live| == |seats|
    requires forall k :: 0 <= k < |seats| ==>
               live[k] == m0[seats[k].rowNumber][seats[k].seatNumber - 1] && CustomerEmailAddress(live[k]) == Some(email)
    requires Applied(m0, venue.seatsByRow, Positions(seats), ReserveOp(email))
    ensures forall k :: 0 <= k < |seats| ==>
              venue.HasSeat(PosOf(seats[k])) && venue.SeatAt(PosOf(seats[k])).status == Reserved(email)
  {
    forall k | 0 <= k < |seats|
      ensures venue.HasSeat(PosOf(seats[k])) && venue.SeatAt(PosOf(seats[k])).status == Reserved(email)
    {
      var r := seats[k].rowNumber;
      var i := seats[k].seatNumber - 1;
      assert InGrid(m0, PosOf(seats[k]));
      assert Pos(r, i + 1) == PosOf(seats[k]);
    }
  }

  /** The seats of a hold that all carry the customer's e-mail are, as the
      venue stores them in m0, held or reserved for that e-mail. */
  lemma MatchedSeatsLive(venue: Venue, m0: Grid, seats: seq<Seat>, live: seq<Seat>, email: Option<string>)
    requires m0 == venue.seatsByRow && StoredIn(m0, venue.rowCount, venue.rowSeatCount, seats)
    requires live == LiveSeats(venue, seats) && AllHeldBy(email, live)
    ensures email.Some? && |live| == |seats|
    ensures forall k :: 0 <= k < |seats| ==>
              live[k] == m0[seats[k].rowNumber][seats[k].seatNumber - 1] && CustomerEmailAddress(live[k]) == email
  {
  }

  class GenericTicketService {
    var venue: Venue?
    var seatLocatorService: ComparatorBasedSeatLocatorService?
    var seatHoldingService: ExpiringTransientSeatHoldingService?

    /** `new GenericTicketService()`: nothing is set. */
    constructor ()
      ensures venue == null && seatLocatorService == null && seatHoldingService == null
      ensures Valid()
    {
      venue := null;
      seatLocatorService := null;
      seatHoldingService := null;
    }

    method SetVenue(venue: Venue?)
      modifies this`venue
      ensures this.venue == venue
    {
      this.venue := venue;
    }

    method SetSeatLocatorService(s: ComparatorBasedSeatLocatorService?)
      modifies this`seatLocatorService
      ensures seatLocatorService == s
    {
      seatLocatorService := s;
    }

    method SetSeatHoldingService(s: ExpiringTransientSeatHoldingService?)
      modifies this`seatHoldingService
      ensures seatHoldingService == s
    {
      seatHoldingService := s;
    }

    function VenueObjs(): set<Venue>
      reads this
    {
      if venue == null then {} else {venue}
    }

    function LocatorObjs(): set<ComparatorBasedSeatLocatorService>
      reads this
    {
      if seatLocatorService == null then {} else {seatLocatorService}
    }

    function HoldingObjs(): set<ExpiringTransientSeatHoldingService>
      reads this
    {
      if seatHoldingService == null then {} else {seatHoldingService}
    }

    /** The wiring the services are used with: the locator and the holding
        service work on this service's venue, the venue is well formed, the
        holding service's index is consistent, and every stored hold's seats
        are seats of the venue. */
    ghost predicate Valid()
      reads this, VenueObjs(), LocatorObjs(), HoldingObjs()
    {
      (venue != null ==> venue.WellFormed())
      && (seatLocatorService != null ==> seatLocatorService.venue == venue)
      && (seatHoldingService != null ==>
            seatHoldingService.venue == venue && seatHoldingService.Valid()
            && forall id :: id in seatHoldingService.index ==>
                 seatHoldingService.Releasable(seatHoldingService.index[id].seatsHeld))
    }

    /** numSeatsAvailable: 0 without a venue, otherwise the number of open
        seats, which never exceeds the venue's number of seats. */
    function NumSeatsAvailable(): (n: int)
      reads this, VenueObjs()
      ensures venue == null ==> n == 0
      ensures venue != null ==> n == |venue.GetOpenSeats()|
      ensures venue != null ==> 0 <= n <= venue.GetSeatCount()
    {
      if venue == null then 0
      else
        OpenAtMostSeats(venue.seatsByRow, 1, venue.rowCount);
        |venue.GetOpenSeats()|
    }

    /** validateEmailAddressesMatch(email, seats): false for no seats; a seat
        without an e-mail (an open seat) makes the TreeSet throw
        NullPointerException; otherwise true exactly when every seat carries
        the e-mail to match. */
    method ValidateEmailAddressesMatch(emailAddressToMatch: Option<string>, seats: seq<Seat>) returns (r: Result<bool>)
      ensures seats == [] ==> r == Ok(false)
      ensures AnyOpen(seats) ==> r == Err(NullPointer)
      ensures !AnyOpen(seats) ==> r == Ok(AllHeldBy(emailAddressToMatch, seats))
    {
      if |seats| == 0 {
        return Ok(false);
      }
      var distinctEmailAddresses: set<string> := {};
      var i := 0;
      while i < |seats|
        invariant 0 <= i <= |seats|
        invariant forall k :: 0 <= k < i ==> !seats[k].status.Open? && seats[k].status.email in distinctEmailAddresses
        invariant forall x :: x in distinctEmailAddresses ==> exists k :: 0 <= k < i && seats[k].status.email == x
      {
        var e := CustomerEmailAddress(seats[i]);
        if e.None? {
          return Err(NullPointer);
        }
        distinctEmailAddresses := distinctEmailAddresses + {e.value};
        i := i + 1;
      }
      assert !AnyOpen(seats);
      if |distinctEmailAddresses| > 1 {
        if AllHeldBy(emailAddressToMatch, seats) {
          assert distinctEmailAddresses == {emailAddressToMatch.value} by {
            forall x | x in distinctEmailAddresses
              ensures x == emailAddressToMatch.value
            {
              var k :| 0 <= k < i && seats[k].status.email == x;
            }
          }
        }
        return Ok(false);
      }
      assert seats[0].status.email in distinctEmailAddresses;
      var emailAddressFromSeats :| emailAddressFromSeats in distinctEmailAddresses;
      forall k | 0 <= k < |seats|
        ensures seats[k].status.email == emailAddressFromSeats
      {
        if seats[k].status.email != emailAddressFromSeats {
          TwoElements(distinctEmailAddresses, seats[k].status.email, emailAddressFromSeats);
        }
      }
      return Ok(emailAddressToMatch.Some? && emailAddressFromSeats == emailAddressToMatch.value);
    }

    /** findAndHoldSeats(numSeats, email): a blank e-mail is answered at once
        with FAILURE_DUE_TO_INVALID_PARAMETERS and nothing else happens.
        Otherwise the locator's seats are held for the customer and the
        answer, successful or not, is registered with the holding service
        under a fresh id and returned. */
    method FindAndHoldSeats(numSeats: int, customerEmailAddress: Option<string>, now: int) returns (r: Result<SeatHold>)
      requires Valid()
      modifies HoldingObjs()`index, HoldingObjs()`idGenerator, HoldingObjs()`issued, VenueObjs()`seatsByRow
      ensures Valid()
      ensures IsBlank(customerEmailAddress) ==>
                r == Ok(Request(numSeats, customerEmailAddress, now).(
                          status := Some(FailureDueToInvalidParameters), statusDetails := Some("customerEmailAddress")))
      ensures !IsBlank(customerEmailAddress) && seatLocatorService == null ==> r == Err(NullPointer)
      ensures IsBlank(customerEmailAddress) || seatLocatorService == null ==>
                unchanged(VenueObjs()) && unchanged(HoldingObjs())
      ensures !IsBlank(customerEmailAddress) && seatLocatorService != null ==>
                var located := old(seatLocatorService.Located(numSeats));
                var answer := Answer(Request(numSeats, customerEmailAddress, now), located, customerEmailAddress.value);
                (answer.Err? ==> r == answer && unchanged(VenueObjs()) && unchanged(HoldingObjs()))
                && (answer.Ok? && seatHoldingService == null ==> r == Err(NullPointer))
                && (answer.Ok? && seatHoldingService != null ==>
                      seatHoldingService.idGenerator == Wrap(old(seatHoldingService.idGenerator) + 1)
                      && r == Ok(answer.value.(id := seatHoldingService.idGenerator))
                      && seatHoldingService.index == old(seatHoldingService.index)[seatHoldingService.idGenerator := r.value])
                && (located.Err? ==> unchanged(VenueObjs()))
                && (located.Ok? ==>
                      venue != null
                      && Applied(old(venue.seatsByRow), venue.seatsByRow, Positions(located.value), HoldOp(customerEmailAddress.value))
                      && NumSeatsAvailable() == old(NumSeatsAvailable()) - numSeats
                      && forall k :: 0 <= k < |answer.value.seatsHeld| ==>
                           venue.HasSeat(PosOf(answer.value.seatsHeld[k]))
                           && venue.SeatAt(PosOf(answer.value.seatsHeld[k])) == answer.value.seatsHeld[k])
    {
      var seatHold := Request(numSeats, customerEmailAddress, now);
      if IsBlank(customerEmailAddress) {
        return Ok(seatHold.(status := Some(FailureDueToInvalidParameters), statusDetails := Some("customerEmailAddress")));
      }
      if seatLocatorService == null {
        return Err(NullPointer);
      }
      var located := seatLocatorService.LocateSeats(numSeats);
      var answer := Answer(seatHold, located, customerEmailAddress.value);
      if answer.Err? {
        return answer;
      }
      r := HoldAndRegister(numSeats, located, answer.value, customerEmailAddress.value);
    }

    /** The rest of findAndHoldSeats once the locator's answer gives a hold to
        return: the located seats, if any, are held for the customer, and the
        hold is registered with the holding service under a new id. */
    method HoldAndRegister(numSeats: int, located: Result<seq<Seat>>, hold: SeatHold, email: string) returns (r: Result<SeatHold>)
      requires Valid() && seatLocatorService != null && located == seatLocatorService.Located(numSeats)
      requires located.Ok? ==> hold.seatsHeld == HeldCopies(located.value, email)
      requires located.Err? ==> hold.seatsHeld == []
      modifies HoldingObjs()`index, HoldingObjs()`idGenerator, HoldingObjs()`issued, VenueObjs()`seatsByRow
      ensures Valid()
      ensures seatHoldingService == null ==> r == Err(NullPointer)
      ensures seatHoldingService != null ==>
                seatHoldingService.idGenerator == Wrap(old(seatHoldingService.idGenerator) + 1)
                && r == Ok(hold.(id := seatHoldingService.idGenerator))
                && seatHoldingService.index == old(seatHoldingService.index)[seatHoldingService.idGenerator := r.value]
      ensures located.Err? ==> unchanged(VenueObjs())
      ensures located.Ok? ==>
                venue != null
                && Applied(old(venue.seatsByRow), venue.seatsByRow, Positions(located.value), HoldOp(email))
                && NumSeatsAvailable() == old(NumSeatsAvailable()) - numSeats
                && forall k :: 0 <= k < |hold.seatsHeld| ==>
                     venue.HasSeat(PosOf(hold.seatsHeld[k])) && venue.SeatAt(PosOf(hold.seatsHeld[k])) == hold.seatsHeld[k]
    {
      if located.Ok? {
        HoldLocated(numSeats, located.value, email);
      }
      r := Register(hold);
    }

    /** The last step of findAndHoldSeats: seatHoldingService.addSeatHold on
        a hold whose seats are in the venue. */
    method Register(hold: SeatHold) returns (r: Result<SeatHold>)
      requires Valid()
      requires seatHoldingService != null ==> seatHoldingService.Releasable(hold.seatsHeld)
      modifies HoldingObjs()`index, HoldingObjs()`idGenerator, HoldingObjs()`issued
      ensures Valid()
      ensures seatHoldingService == null ==> r == Err(NullPointer)
      ensures seatHoldingService != null ==>
                seatHoldingService.idGenerator == Wrap(old(seatHoldingService.idGenerator) + 1)
                && r == Ok(hold.(id := seatHoldingService.idGenerator))
                && seatHoldingService.index == old(seatHoldingService.index)[seatHoldingService.idGenerator := r.value]
    {
      if seatHoldingService == null {
        return Err(NullPointer);
      }
      ghost var before := seatHoldingService.index;
      var stored := seatHoldingService.AddSeatHold(hold);
      RegisteredReleasable(before, stored);
      return Ok(stored);
    }

    /** The hold loop of findAndHoldSeats on the seats the locator answered:
        they become held for the customer, the open count drops by their
        number, and the answer's seats are the venue's seats as they now are. */
    method HoldLocated(numSeats: int, seats: seq<Seat>, email: string)
      requires Valid() && venue != null && seatLocatorService != null && seatLocatorService.Located(numSeats) == Ok(seats)
      modifies VenueObjs()`seatsByRow
      ensures Valid()
      ensures Applied(old(venue.seatsByRow), venue.seatsByRow, Positions(seats), HoldOp(email))
      ensures NumSeatsAvailable() == old(NumSeatsAvailable()) - |seats|
      ensures var held := HeldCopies(seats, email);
              StoredIn(venue.seatsByRow, venue.rowCount, venue.rowSeatCount, held)
              && forall k :: 0 <= k < |held| ==> venue.HasSeat(PosOf(held[k])) && venue.SeatAt(PosOf(held[k])) == held[k]
    {
      ghost var m0 := venue.seatsByRow;
      seatLocatorService.LocatedAreVenueSeats(numSeats);
      HoldAll(venue, seats, email);
      HeldCopiesAreVenueSeats(venue, seats, email);
      KeepsHoldsReleasable(m0, Positions(seats), HoldOp(email));
    }

    /** Registering a hold whose seats are stored in the venue keeps every
        stored hold's seats in the venue. */
    lemma RegisteredReleasable(before: map<int, SeatHold>, stored: SeatHold)
      requires seatHoldingService != null && seatHoldingService.index == before[stored.id := stored]
      requires forall id :: id in before ==> seatHoldingService.Releasable(before[id].seatsHeld)
      requires seatHoldingService.Releasable(stored.seatsHeld)
      ensures forall id :: id in seatHoldingService.index ==> seatHoldingService.Releasable(seatHoldingService.index[id].seatsHeld)
    {
    }

    /** reserveSeats(id, email): rejects a negative id and an unknown one;
        the hold's seats, as the venue now holds them, must all carry the
        customer's e-mail; then each is reserved for the customer and the
        hold is dropped from the holding service. A seat that cannot be
        reserved is skipped; the confirmation code is returned. */
    method ReserveSeats(seatHoldId: int, customerEmailAddress: Option<string>, confirmationCode: string) returns (r: Result<string>)
      requires Valid()
      modifies HoldingObjs()`index, VenueObjs()`seatsByRow
      ensures Valid()
      ensures r.Err? ==> unchanged(VenueObjs()) && unchanged(HoldingObjs())
      ensures seatHoldId < 0 ==> r == Err(IllegalArgument(INVALID_SEAT_HOLD_ID))
      ensures 0 <= seatHoldId && seatHoldingService == null ==> r == Err(NullPointer)
      ensures 0 <= seatHoldId && seatHoldingService != null && seatHoldId !in old(seatHoldingService.index) ==>
                r == Err(IllegalArgument(SEAT_HOLD_ID_UNKNOWN))
      ensures 0 <= seatHoldId && seatHoldingService != null && seatHoldId in old(seatHoldingService.index) ==>
                var seats := old(seatHoldingService.index[seatHoldId].seatsHeld);
                var live := if seats == [] then [] else old(LiveSeats(venue, seats));
                (AnyOpen(live) ==> r == Err(NullPointer))
                && (!AnyOpen(live) && !AllHeldBy(customerEmailAddress, live) ==>
                      r == Err(IllegalArgument(SEAT_HOLD_CUSTOMER_EMAIL_ADDRESS_MISMATCH)))
                && (AllHeldBy(customerEmailAddress, live) && IsBlank(customerEmailAddress) ==>
                      r == Err(IllegalArgument(EMAIL_ADDRESS_IS_NULL_OR_BLANK)))
                && (AllHeldBy(customerEmailAddress, live) && !IsBlank(customerEmailAddress) ==>
                      r == Ok(confirmationCode) && venue != null
                      && seatHoldingService.index == old(seatHoldingService.index) - {seatHoldId}
                      && Applied(old(venue.seatsByRow), venue.seatsByRow, Positions(seats), ReserveOp(customerEmailAddress.value))
                      && NumSeatsAvailable() == old(NumSeatsAvailable())
                      && forall k :: 0 <= k < |seats| ==>
                           venue.HasSeat(PosOf(seats[k])) && venue.SeatAt(PosOf(seats[k])).status == Reserved(customerEmailAddress.value))
    {
      if seatHoldId < 0 {
        return Err(IllegalArgument(INVALID_SEAT_HOLD_ID));
      }
      if seatHoldingService == null {
        return Err(NullPointer);
      }
      var found := seatHoldingService.GetSeatHoldById(seatHoldId);
      if found.Err? {
        return Err(IllegalArgument(SEAT_HOLD_ID_UNKNOWN));
      }
      var heldSeats := found.value.seatsHeld;
      var live := if heldSeats == [] then [] else LiveSeats(venue, heldSeats);
      var matched := ValidateEmailAddressesMatch(customerEmailAddress, live);
      if matched.Err? {
        return Err(matched.error);
      }
      if !matched.value {
        return Err(IllegalArgument(SEAT_HOLD_CUSTOMER_EMAIL_ADDRESS_MISMATCH));
      }
      r := ReserveMatched(seatHoldId, heldSeats, customerEmailAddress, confirmationCode);
    }

    /** The rest of reserveSeats once the hold's seats all carry the customer's
        e-mail: reserve them, drop the hold, answer the confirmation code. */
    method ReserveMatched(seatHoldId: int, heldSeats: seq<Seat>, customerEmailAddress: Option<string>, confirmationCode: string)
      returns (r: Result<string>)
      requires Valid() && seatHoldingService != null && seatHoldId in seatHoldingService.index
      requires heldSeats == seatHoldingService.index[seatHoldId].seatsHeld && heldSeats != [] && venue != null
      requires AllHeldBy(customerEmailAddress, LiveSeats(venue, heldSeats))
      modifies HoldingObjs()`index, VenueObjs()`seatsByRow
      ensures Valid()
      ensures IsBlank(customerEmailAddress) ==>
                r == Err(IllegalArgument(EMAIL_ADDRESS_IS_NULL_OR_BLANK)) && unchanged(VenueObjs()) && unchanged(HoldingObjs())
      ensures !IsBlank(customerEmailAddress) ==>
                r == Ok(confirmationCode)
                && seatHoldingService.index == old(seatHoldingService.index) - {seatHoldId}
                && Applied(old(venue.seatsByRow), venue.seatsByRow, Positions(heldSeats), ReserveOp(customerEmailAddress.value))
                && NumSeatsAvailable() == old(NumSeatsAvailable())
                && forall k :: 0 <= k < |heldSeats| ==>
                     venue.HasSeat(PosOf(heldSeats[k])) && venue.SeatAt(PosOf(heldSeats[k])).status == Reserved(customerEmailAddress.value)
    {
      ghost var m0 := venue.seatsByRow;
      ghost var live := LiveSeats(venue, heldSeats);
      MatchedSeatsLive(venue, m0, heldSeats, live, customerEmailAddress);
      var reserved := ReserveAll(venue, heldSeats, customerEmailAddress);
      if reserved.Fail? {
        return Err(reserved.error);
      }
      ReservedAfterRound(venue, m0, heldSeats, live, customerEmailAddress.value);
      ReserveKeepsOpenSeats(m0, venue.seatsByRow, Positions(heldSeats), customerEmailAddress.value, 1, venue.rowCount);
      KeepsHoldsReleasable(m0, Positions(heldSeats), ReserveOp(customerEmailAddress.value));
      DropHold(seatHoldId);
      return Ok(confirmationCode);
    }

    /** The release step of reserveSeats: removeSeatHoldById on a stored id,
        which cannot fail. */
    method DropHold(seatHoldId: int)
      requires Valid() && seatHoldingService != null && seatHoldId in seatHoldingService.index
      modifies HoldingObjs()`index
      ensures Valid()
      ensures seatHoldingService.index == old(seatHoldingService.index) - {seatHoldId}
    {
      var removed := seatHoldingService.RemoveSeatHoldById(seatHoldId);
    }

    /** A round of seat operations on the venue keeps it well formed and keeps
        the seats of every stored hold stored in it. */
    lemma KeepsHoldsReleasable(m0: Grid, K: set<Pos>, op: SeatOp)
      requires venue != null && WellFormedGrid(m0, venue.rowCount, venue.rowSeatCount)
      requires Applied(m0, venue.seatsByRow, K, op)
      requires seatHoldingService != null ==> seatHoldingService.venue == venue
      requires seatHoldingService != null ==> forall id :: id in seatHoldingService.index ==>
                 var seats := seatHoldingService.index[id].seatsHeld;
                 seats == [] || StoredIn(m0, venue.rowCount, venue.rowSeatCount, seats)
      ensures venue.WellFormed()
      ensures seatHoldingService != null ==> forall id :: id in seatHoldingService.index ==>
                seatHoldingService.Releasable(seatHoldingService.index[id].seatsHeld)
    {
      AppliedKeepsWellFormed(m0, venue.seatsByRow, K, op, venue.rowCount, venue.rowSeatCount);
      if seatHoldingService != null {
        forall id | id in seatHoldingService.index
          ensures seatHoldingService.Releasable(seatHoldingService.index[id].seatsHeld)
        {
          StoredInSameShape(m0, venue.seatsByRow, K, op, venue.rowCount, venue.rowSeatCount, seatHoldingService.index[id].seatsHeld);
        }
      }
    }
  }
}
