/** Seat and Row (seats.model). A seat is a value here: its coordinates, its
    layout flags and its reservation state. The Venue owns the live seats;
    a seat held elsewhere (in a seat hold) stands for the venue's seat at its
    coordinates. */
module Seats {
  import opened Common

  /** The reservation lifecycle of one seat: OPEN, HELD or RESERVED, the
      latter two for a customer e-mail address. */
  datatype SeatStatus = Open | Held(email: string) | Reserved(email: string)

  datatype Seat = Seat(
    rowNumber: int,
    seatNumber: int,
    aisleSeat: bool,
    centerRow: bool,
    centerSeat: bool,
    status: SeatStatus)

  /** A row: its number and its seats, in seat order. */
  datatype Row = Row(rowNumber: int, seats: seq<Seat>)

  /** `new Seat()`: Java's field defaults, and an open seat. */
  function NewSeat(): (s: Seat)
    ensures s.rowNumber == 0 && s.seatNumber == 0
    ensures !s.aisleSeat && !s.centerRow && !s.centerSeat && s.status == Open
  {
    Seat(0, 0, false, false, false, Open)
  }

  /** Row.getSeatCount. */
  function SeatCount(row: Row): (n: nat)
    ensures n == |row.seats|
  {
    |row.seats|
  }

  /** Seat.getCustomerEmailAddress: null for an open seat. */
  function CustomerEmailAddress(s: Seat): (e: Option<string>)
    ensures e.None? <==> s.status.Open?
    ensures e.Some? ==> e.value == s.status.email
  {
    match s.status
    case Open => None
    case Held(email) => Some(email)
    case Reserved(email) => Some(email)
  }

  /** Seat.isAisleSeat(rowSeatCount): the first and the last seat of the row
      are aisle seats, and no seat strictly between them is. */
  function IsAisleSeat(s: Seat, rowSeatCount: int): (r: bool)
    ensures s.seatNumber == 1 ==> r
    ensures s.seatNumber == rowSeatCount ==> r
    ensures 1 < s.seatNumber < rowSeatCount ==> !r
  {
    s.seatNumber == 1 || s.seatNumber == rowSeatCount
  }

  /** Numbering the row from the other end keeps the aisle seats. */
  lemma AisleSeatMirror(s: Seat, rowSeatCount: int)
    ensures IsAisleSeat(s, rowSeatCount) <==> IsAisleSeat(s.(seatNumber := rowSeatCount + 1 - s.seatNumber), rowSeatCount)
  {
  }

  /** Seat.isCenterRow(centerRowSeatCount, rowSeatCount): rejects a center
      span that is not smaller than the row, and otherwise answers true for
      every seat (the seat-number comparison is commented out in the source). */
  function IsCenterRow(s: Seat, centerRowSeatCount: int, rowSeatCount: int): (r: Result<bool>)
    ensures r.Err? <==> rowSeatCount <= centerRowSeatCount
    ensures r.Err? ==> r.error == IllegalArgument(CENTER_ROW_SEAT_COUNT_EXCEEDS_ROW_SIZE)
    ensures r.Ok? ==> r.value
  {
    if rowSeatCount <= centerRowSeatCount then
      Err(IllegalArgument(CENTER_ROW_SEAT_COUNT_EXCEEDS_ROW_SIZE))
    else
      Ok(true)
  }

  /** The moves the lifecycle permits: OPEN to HELD, HELD to RESERVED for the
      same customer, HELD back to OPEN when a hold lapses, or no move. */
  predicate Step(before: SeatStatus, after: SeatStatus) {
    before == after
    || (before.Open? && after.Held?)
    || (before.Held? && after == Reserved(before.email))
    || (before.Held? && after.Open?)
  }

  /** A state change the venue applies to one seat. */
  datatype SeatOp = HoldOp(email: string) | ReserveOp(email: string) | ReleaseOp

  /** The seat after `op`, where an operation that does not apply leaves it as
      it was: Seat.hold takes an open seat; reserving needs a hold by the same
      customer; releasing needs a hold. */
  function ApplyOp(op: SeatOp, s: Seat): (t: Seat)
    ensures t == s.(status := t.status)
    ensures Step(s.status, t.status)
  {
    match op
    case HoldOp(e) => if s.status.Open? then s.(status := Held(e)) else s
    case ReserveOp(e) => if s.status == Held(e) then s.(status := Reserved(e)) else s
    case ReleaseOp => if s.status.Held? then s.(status := Open) else s
  }

  /** Applying an operation a second time changes nothing, so a seat listed
      twice is treated as if listed once. */
  lemma ApplyOpIdempotent(op: SeatOp, s: Seat)
    ensures ApplyOp(op, ApplyOp(op, s)) == ApplyOp(op, s)
  {
  }

  /** A reserved seat is final: no operation moves it. */
  lemma ReservedIsFinal(op: SeatOp, s: Seat)
    requires s.status.Reserved?
    ensures ApplyOp(op, s) == s
  {
  }

  /** The error a venue reports when `op` does not apply to the seat, or None
      when it does. Holding needs an open seat; reserving needs a hold by the
      same customer; releasing needs a hold. */
  function OpError(op: SeatOp, s: Seat): (r: Option<Error>)
    ensures r.None? <==> ApplyOp(op, s) != s
  {
    match op
    case HoldOp(_) =>
      if s.status.Open? then None else Some(SeatUnavailable(SEAT_IS_NOT_OPEN))
    case ReserveOp(e) =>
      if s.status == Held(e) then None
      else if s.status.Held? then Some(SeatUnavailable(EMAIL_ADDRESS_DOES_NOT_MATCH))
      else Some(SeatUnavailable(SEAT_IS_NOT_HELD))
    case ReleaseOp =>
      if s.status.Held? then None
      else if s.status.Reserved? then Some(SeatNotHeld(SEAT_IS_RESERVED))
      else Some(SeatNotHeld(SEAT_IS_NOT_HELD))
  }
}
