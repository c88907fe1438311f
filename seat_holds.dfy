/** SeatHold and SeatHoldRequestStatusEnum (seats.model): the record of one
    find-and-hold request. Its setters are only called while a request is
    being answered, so it is a value; a setter is a datatype update. */
module SeatHolds {
  import opened Common
  import opened Seats

  datatype SeatHoldRequestStatus =
    | Success
    | FailureDueToInvalidParameters
    | FailureDueToInsufficientOpenSeats

  /** `id` is Java's int id; `creationTime` is a timestamp in milliseconds;
      null references are None. */
  datatype SeatHold = SeatHold(
    id: int,
    status: Option<SeatHoldRequestStatus>,
    statusDetails: Option<string>,
    customerEmailAddress: Option<string>,
    numberOfSeatsRequested: int,
    numberOfSeatsHeld: int,
    seatsHeld: seq<Seat>,
    creationTime: int)

  /** `new SeatHold()` at time `now`: no id, no status, no seats. */
  function NewSeatHold(now: int): (h: SeatHold)
    ensures h.seatsHeld == [] && h.numberOfSeatsHeld == 0 && h.creationTime == now
    ensures h.status.None? && h.statusDetails.None? && h.customerEmailAddress.None?
  {
    SeatHold(0, None, None, None, 0, 0, [], now)
  }

  /** A hold lapses when it was created strictly before the cutoff
      (DateTime.isBefore). */
  predicate IsExpired(h: SeatHold, cutoff: int) {
    h.creationTime < cutoff
  }
}
