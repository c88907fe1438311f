/** StatefulTransientTicketService (seats.services): a ticket service that
    asks its seat locator for seats and reports the outcome, but holds no
    seat and records no hold; reserveSeats is a stub. The locator is the
    core's ComparatorBasedSeatLocatorService; the creation time of a new
    hold is a parameter. */
module StatefulTicketService {
  import opened Common
  import opened Seats
  import opened SeatHolds
  import opened Venues
  import opened SeatLocator
  import TicketService

  /** The hold findAndHoldSeats answers for the locator's outcome: the
      request with a status, and the exception's message for a failure the
      service catches; any other exception propagates. No seat is attached. */
  function Reported(request: SeatHold, located: Result<seq<Seat>>): (r: Result<SeatHold>)
    ensures r.Err? <==> located.Err? && !located.error.InsufficientAvailableSeats? && !located.error.IllegalArgument?
    ensures r.Err? ==> r.error == located.error
    ensures located.Ok? ==> r == Ok(request.(status := Some(Success)))
    ensures located.Err? && located.error.InsufficientAvailableSeats? ==>
              r == Ok(request.(status := Some(FailureDueToInsufficientOpenSeats), statusDetails := Some(located.error.message)))
    ensures located.Err? && located.error.IllegalArgument? ==>
              r == Ok(request.(status := Some(FailureDueToInvalidParameters), statusDetails := Some(located.error.message)))
  {
    match located
    case Ok(_) => Ok(request.(status := Some(Success)))
    case Err(InsufficientAvailableSeats(message)) =>
      Ok(request.(status := Some(FailureDueToInsufficientOpenSeats), statusDetails := Some(message)))
    case Err(IllegalArgument(message)) =>
      Ok(request.(status := Some(FailureDueToInvalidParameters), statusDetails := Some(message)))
    case Err(e) => Err(e)
  }

  /** The stateful service answers exactly as the generic one does, with the
      same status and details, except that it attaches no seats. */
  lemma {:induction false} ReportedIsAnswerWithoutSeats(request: SeatHold, located: Result<seq<Seat>>, email: string)
    ensures Reported(request, located).Ok? <==> TicketService.Answer(request, located, email).Ok?
    ensures Reported(request, located).Err? ==>
              Reported(request, located) == TicketService.Answer(request, located, email)
    ensures Reported(request, located).Ok? ==>
              Reported(request, located).value
              == TicketService.Answer(request, located, email).value.(
                   seatsHeld := request.seatsHeld, numberOfSeatsHeld := request.numberOfSeatsHeld)
  {
    match located
    case Ok(seats) =>
      var a := TicketService.Answer(request, located, email).value;
      assert a == request.(status := Some(Success), seatsHeld := TicketService.HeldCopies(seats, email),
                           numberOfSeatsHeld := |seats|);
    case Err(e) =>
  }

  class StatefulTransientTicketService {
    var venue: Venue?
    var seatLocator: ComparatorBasedSeatLocatorService?

    /** `new StatefulTransientTicketService()`: nothing is set. */
    constructor ()
      ensures venue == null && seatLocator == null
    {
      venue := null;
      seatLocator := null;
    }

    method SetVenue(venue: Venue?)
      modifies this`venue
      ensures this.venue == venue
    {
      this.venue := venue;
    }

    method SetSeatLocator(seatLocator: ComparatorBasedSeatLocatorService?)
      modifies this`seatLocator
      ensures this.seatLocator == seatLocator
    {
      this.seatLocator := seatLocator;
    }

    function VenueObjs(): set<Venue>
      reads this
    {
      if venue == null then {} else {venue}
    }

    /** numSeatsAvailable: the number of open seats of the venue, at most its
        number of seats; without a venue (no null check in the source) a
        NullPointerException. */
    function NumSeatsAvailable(): (r: Result<int>)
      reads this, VenueObjs()
      ensures r.Err? <==> venue == null
      ensures r.Err? ==> r.error == NullPointer
      ensures r.Ok? ==> r.value == |venue.GetOpenSeats()| && 0 <= r.value <= venue.GetSeatCount()
    {
      if venue == null then Err(NullPointer)
      else
        OpenAtMostSeats(venue.seatsByRow, 1, venue.rowCount);
        Ok(|venue.GetOpenSeats()|)
    }

    /** findAndHoldSeats(numSeats, email): a new hold carrying the e-mail,
        with the status the locator's outcome gives (Reported); a missing
        locator is a NullPointerException, and the e-mail is not checked.
        Nothing changes: no seat is held and no hold is stored. */
    method FindAndHoldSeats(numSeats: int, customerEmailAddress: Option<string>, now: int) returns (r: Result<SeatHold>)
      ensures seatLocator == null ==> r == Err(NullPointer)
      ensures seatLocator != null ==>
                r == Reported(NewSeatHold(now).(customerEmailAddress := customerEmailAddress), seatLocator.Located(numSeats))
      ensures r.Ok? ==> r.value.seatsHeld == [] && r.value.numberOfSeatsHeld == 0 && r.value.status.Some?
                        && r.value.customerEmailAddress == customerEmailAddress && r.value.creationTime == now
      ensures r.Ok? ==> (r.value.status == Some(Success) <==> numSeats > 0 && seatLocator.Located(numSeats).Ok?)
    {
      var seatHold := NewSeatHold(now).(customerEmailAddress := customerEmailAddress);
      if seatLocator == null {
        return Err(NullPointer);
      }
      var located := seatLocator.LocateSeats(numSeats);
      r := Reported(seatHold, located);
    }

    /** reserveSeats(id, email): a stub that answers "ok" for any hold id and
        e-mail, and reserves nothing. */
    method ReserveSeats(seatHoldId: int, customerEmail: Option<string>) returns (r: string)
      ensures r == "ok"
    {
      r := "ok";
    }
  }
}
