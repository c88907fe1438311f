/** RowFactory (seats.model.RowFactory): one row with its aisle, center-seat
    and center-row flags set. */
module RowFactory {
  import opened Common
  import opened Seats
  import SeatUtils

  /** The flags createRow gives the seat at index i (seat number i + 1) of a
      row of n seats: aisle at either end, the center seat at the floor of
      n / 2, center row between the minimum and maximum center seats. The
      seats' own row and seat numbers keep their defaults. */
  predicate RowLayout(seats: seq<Seat>, n: int)
    requires 0 <= n
  {
    var lo := SeatUtils.CalculateMinimumCenterSeat(n, 0);
    var hi := SeatUtils.CalculateMaximumCenterSeat(n, 0);
    |seats| == n && lo.Ok? && hi.Ok?
    && forall i :: 0 <= i < n ==>
         seats[i] == NewSeat().(
           aisleSeat := (i + 1 == 1 || i + 1 == n),
           centerSeat := (i + 1 == SeatUtils.CalculateCenterSeat(n)),
           centerRow := (lo.value <= i + 1 <= hi.value))
  }

  /** createRow(rowNumber, rowSeatCount, centerRowSeatCount): rejects a row
      number or seat count below 1, a negative center-row count, and one above
      the seat count (0 is accepted); otherwise a row with that number and
      rowSeatCount flagged seats. */
  method CreateRow(rowNumber: int, rowSeatCount: int, centerRowSeatCount: int) returns (r: Result<Row>)
    ensures r.Err? <==> rowNumber < 1 || rowSeatCount < 1 || centerRowSeatCount < 0 || centerRowSeatCount > rowSeatCount
    ensures (rowNumber < 1 || rowSeatCount < 1) ==>
              r == Err(IllegalArgument(ROW_NUMBERS_MUST_BE_GREATER_THAN_OR_EQUAL_TO_ONE))
    ensures (rowNumber >= 1 && rowSeatCount >= 1 && centerRowSeatCount < 0) ==>
              r == Err(IllegalArgument(CENTER_ROW_SEAT_COUNT_MUST_BE_GREATER_THAN_ZERO))
    ensures (rowNumber >= 1 && rowSeatCount >= 1 && centerRowSeatCount >= 0 && centerRowSeatCount > rowSeatCount) ==>
              r == Err(IllegalArgument(CENTER_ROW_SEAT_COUNT_EXCEEDS_ROW_SIZE))
    ensures r.Ok? ==> r.value.rowNumber == rowNumber && SeatCount(r.value) == rowSeatCount
    ensures r.Ok? ==> RowLayout(r.value.seats, rowSeatCount)
  {
    if rowNumber < 1 || rowSeatCount < 1 {
      return Err(IllegalArgument(ROW_NUMBERS_MUST_BE_GREATER_THAN_OR_EQUAL_TO_ONE));
    }
    if centerRowSeatCount < 0 {
      return Err(IllegalArgument(CENTER_ROW_SEAT_COUNT_MUST_BE_GREATER_THAN_ZERO));
    }
    if centerRowSeatCount > rowSeatCount {
      return Err(IllegalArgument(CENTER_ROW_SEAT_COUNT_EXCEEDS_ROW_SIZE));
    }
    var minimumCenterRow := SeatUtils.CalculateMinimumCenterSeat(rowSeatCount, centerRowSeatCount).value;
    var maximumCenterRow := SeatUtils.CalculateMaximumCenterSeat(rowSeatCount, centerRowSeatCount).value;
    SeatUtils.IndependentOfCenterRowSeatCount(rowSeatCount, centerRowSeatCount, 0);
    var centerRowSeatNumber := SeatUtils.CalculateCenterSeat(rowSeatCount);

    var seats: seq<Seat> := [];
    var seatNumber := 1;
    while seatNumber <= rowSeatCount
      invariant 1 <= seatNumber <= rowSeatCount + 1
      invariant |seats| == seatNumber - 1
      invariant forall i :: 0 <= i < |seats| ==>
                  seats[i] == NewSeat().(
                    aisleSeat := (i + 1 == 1 || i + 1 == rowSeatCount),
                    centerSeat := (i + 1 == centerRowSeatNumber),
                    centerRow := (minimumCenterRow <= i + 1 <= maximumCenterRow))
    {
      var seat := NewSeat();
      if seatNumber == 1 || seatNumber == rowSeatCount {
        seat := seat.(aisleSeat := true);
      }
      if seatNumber == centerRowSeatNumber {
        seat := seat.(centerSeat := true);
      }
      if minimumCenterRow <= seatNumber && seatNumber <= maximumCenterRow {
        seat := seat.(centerRow := true);
      }
      seats := seats + [seat];
      seatNumber := seatNumber + 1;
    }
    return Ok(Row(rowNumber, seats));
  }

  /** Seat k of a created row is an aisle seat exactly when Seat.isAisleSeat
      answers true for seat number k in a row of that size. */
  lemma AisleFlagMatchesIsAisleSeat(seats: seq<Seat>, n: int, i: int)
    requires 0 <= n && RowLayout(seats, n) && 0 <= i < n
    ensures seats[i].aisleSeat == IsAisleSeat(seats[i].(seatNumber := i + 1), n)
  {
  }

  /** The integers lo, ..., hi - 1. */
  function Ints(lo: int, hi: int): (r: set<int>)
    ensures forall i :: i in r <==> lo <= i < hi
    decreases hi - lo
  {
    if hi <= lo then {} else {lo} + Ints(lo + 1, hi)
  }

  lemma {:induction false} IntsSize(lo: int, hi: int)
    requires lo <= hi
    ensures |Ints(lo, hi)| == hi - lo
    decreases hi - lo
  {
    if lo < hi {
      IntsSize(lo + 1, hi);
      assert lo !in Ints(lo + 1, hi);
    }
  }

  /** A created row has exactly one center seat when it has at least two
      seats, and none when it has one (the floor of 1 / 2 is 0). */
  lemma CenterSeatCount(seats: seq<Seat>, n: int)
    requires 1 <= n && RowLayout(seats, n)
    ensures |set i | 0 <= i < n && seats[i].centerSeat| == if n >= 2 then 1 else 0
  {
    var center := SeatUtils.CalculateCenterSeat(n);
    if n >= 2 {
      assert (set i | 0 <= i < n && seats[i].centerSeat) == {center - 1};
    } else {
      assert (set i | 0 <= i < n && seats[i].centerSeat) == {};
    }
  }

  /** A created row has two aisle seats, or one when it has a single seat. */
  lemma AisleSeatCount(seats: seq<Seat>, n: int)
    requires 1 <= n && RowLayout(seats, n)
    ensures |set i | 0 <= i < n && seats[i].aisleSeat| == if n >= 2 then 2 else 1
  {
    if n >= 2 {
      assert (set i | 0 <= i < n && seats[i].aisleSeat) == {0, n - 1};
    } else {
      assert (set i | 0 <= i < n && seats[i].aisleSeat) == {0};
    }
  }

  /** The center-row seats of a created row are the seat numbers from the
      larger of 1 and the minimum center seat up to the maximum center seat:
      a block of one or two seats, whatever center-row count was asked for,
      and none in a row of one seat. */
  lemma CenterRowCount(seats: seq<Seat>, n: int)
    requires 1 <= n && RowLayout(seats, n)
    ensures var lo := SeatUtils.CalculateMinimumCenterSeat(n, 0).value;
            var hi := SeatUtils.CalculateMaximumCenterSeat(n, 0).value;
            var first := if lo < 1 then 1 else lo;
            |set i | 0 <= i < n && seats[i].centerRow| == (if hi < first then 0 else hi - first + 1)
    ensures |set i | 0 <= i < n && seats[i].centerRow| == (if n == 1 then 0 else if n >= 6 && (n / 2) % 2 == 1 then 2 else 1)
  {
    var lo := SeatUtils.CalculateMinimumCenterSeat(n, 0).value;
    var hi := SeatUtils.CalculateMaximumCenterSeat(n, 0).value;
    var first := if lo < 1 then 1 else lo;
    assert hi <= n;
    if hi < first {
      assert (set i | 0 <= i < n && seats[i].centerRow) == {};
    } else {
      assert (set i | 0 <= i < n && seats[i].centerRow) == Ints(first - 1, hi);
      IntsSize(first - 1, hi);
    }
  }
}
