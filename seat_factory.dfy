/** SeatFactory (seats.SeatFactory): the numbered seats of one row. */
module SeatFactory {
  import opened Common
  import opened Seats

  /** createSeat(rowNumber, seatNumber): rejects a row or seat number below 1;
      otherwise a new open seat carrying those coordinates. */
  function CreateSeat(rowNumber: int, seatNumber: int): (r: Result<Seat>)
    ensures r.Err? <==> rowNumber <= 0 || seatNumber <= 0
    ensures r.Err? ==> r.error == IllegalArgument(ROW_NUMBERS_MUST_BE_GREATER_THAN_OR_EQUAL_TO_ONE)
    ensures r.Ok? ==> r.value.rowNumber == rowNumber && r.value.seatNumber == seatNumber
    ensures r.Ok? ==> r.value == NewSeat().(rowNumber := r.value.rowNumber, seatNumber := r.value.seatNumber)
  {
    if rowNumber <= 0 || seatNumber <= 0 then
      Err(IllegalArgument(ROW_NUMBERS_MUST_BE_GREATER_THAN_OR_EQUAL_TO_ONE))
    else
      Ok(NewSeat().(rowNumber := rowNumber, seatNumber := seatNumber))
  }

  /** createSeatsForRow(rowNumber, rowSeatCount): rejects a row number or a
      seat count below 1; otherwise rowSeatCount open seats of that row,
      numbered 1, 2, ... in list order. The guard of createSeat never fires
      here, since every seat number the loop passes is at least 1. */
  method CreateSeatsForRow(rowNumber: int, rowSeatCount: int) returns (r: Result<seq<Seat>>)
    ensures r.Err? <==> rowNumber <= 0 || rowSeatCount <= 0
    ensures r.Err? ==> r.error == IllegalArgument(EMPTY_VENUE_NOT_PERMITTED)
    ensures r.Ok? ==> |r.value| == rowSeatCount
    ensures r.Ok? ==> forall i :: 0 <= i < |r.value| ==>
              r.value[i] == NewSeat().(rowNumber := rowNumber, seatNumber := i + 1)
    ensures r.Ok? ==> forall i, j :: 0 <= i < j < |r.value| ==> r.value[i].seatNumber < r.value[j].seatNumber
  {
    if rowNumber <= 0 || rowSeatCount <= 0 {
      return Err(IllegalArgument(EMPTY_VENUE_NOT_PERMITTED));
    }
    var seats: seq<Seat> := [];
    var seatNumber := 1;
    while seatNumber <= rowSeatCount
      invariant 1 <= seatNumber <= rowSeatCount + 1
      invariant |seats| == seatNumber - 1
      invariant forall i :: 0 <= i < |seats| ==> seats[i] == NewSeat().(rowNumber := rowNumber, seatNumber := i + 1)
    {
      var seat := CreateSeat(rowNumber, seatNumber);
      seats := seats + [seat.value];
      seatNumber := seatNumber + 1;
    }
    return Ok(seats);
  }
}
