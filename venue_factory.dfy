/** VenueFactory (seats.VenueFactory): a venue of rowCount rows of
    rowSeatCount seats, every seat open. */
module VenueFactory {
  import opened Common
  import opened Seats
  import opened Venues
  import SeatFactory

  /** The grid a new venue holds: rows 1..rowCount, seat j of row r a new open
      seat numbered (r, j). */
  ghost predicate FreshLayout(m: Grid, rowCount: int, rowSeatCount: int) {
    (forall r :: r in m <==> 1 <= r <= rowCount)
    && (forall r :: r in m ==> |m[r]| == rowSeatCount)
    && (forall r, i :: r in m && 0 <= i < |m[r]| ==> m[r][i] == NewSeat().(rowNumber := r, seatNumber := i + 1))
  }

  /** A freshly laid-out venue is well formed, all its seats are open, and it
      offers rowCount * rowSeatCount open seats out of as many seats. */
  lemma FreshLayoutAllOpen(m: Grid, rowCount: int, rowSeatCount: int)
    requires 0 <= rowCount && 0 <= rowSeatCount && FreshLayout(m, rowCount, rowSeatCount)
    ensures WellFormedGrid(m, rowCount, rowSeatCount)
    ensures |OpenSeatsFrom(m, 1, rowCount)| == rowCount * rowSeatCount
    ensures SeatsFrom(m, 1, rowCount) == rowCount * rowSeatCount
  {
    AllOpenCount(m, 1, rowCount, rowSeatCount);
    SeatCountOfWellFormed(m, 1, rowCount, rowSeatCount);
  }

  /** createVenue(rowCount, rowSeatCount, centerRowSize): rejects a row count
      or seat count below 1; otherwise a venue with the dimensions given
      (centerRowSize is stored unchecked) and every row filled by
      SeatFactory.createSeatsForRow. */
  method CreateVenue(rowCount: int, rowSeatCount: int, centerRowSize: int) returns (r: Result<Venue>)
    ensures r.Err? <==> rowCount < 1 || rowSeatCount < 1
    ensures r.Err? ==> r.error == IllegalArgument(EMPTY_VENUE_NOT_PERMITTED)
    ensures r.Ok? ==> fresh(r.value)
    ensures r.Ok? ==> r.value.rowCount == rowCount && r.value.rowSeatCount == rowSeatCount
                      && r.value.centerRowSize == centerRowSize
    ensures r.Ok? ==> FreshLayout(r.value.seatsByRow, rowCount, rowSeatCount) && r.value.WellFormed()
    ensures r.Ok? ==> |r.value.GetOpenSeats()| == rowCount * rowSeatCount
                      && r.value.GetSeatCount() == rowCount * rowSeatCount
  {
    if rowCount < 1 || rowSeatCount < 1 {
      return Err(IllegalArgument(EMPTY_VENUE_NOT_PERMITTED));
    }
    var venue := new Venue();
    venue.SetRowCount(rowCount);
    venue.SetRowSeatCount(rowSeatCount);
    venue.SetCenterRowSize(centerRowSize);

    var rowNumber := 1;
    while rowNumber <= rowCount
      invariant 1 <= rowNumber <= rowCount + 1
      invariant venue.rowCount == rowCount && venue.rowSeatCount == rowSeatCount
      invariant venue.centerRowSize == centerRowSize
      invariant FreshLayout(venue.seatsByRow, rowNumber - 1, rowSeatCount)
    {
      var seats := SeatFactory.CreateSeatsForRow(rowNumber, rowSeatCount);
      var added := venue.AddSeatsForRow(rowNumber, seats.value);
      rowNumber := rowNumber + 1;
    }
    FreshLayoutAllOpen(venue.seatsByRow, rowCount, rowSeatCount);
    return Ok(venue);
  }
}
