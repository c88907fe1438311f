/** SeatUtils: where the center of a row lies and which seats around it are
    "center row". The source computes halves in float and then takes
    Math.floor / Math.ceil; here the same halves are integer floor division
    (Dafny's `/` by a positive divisor) and ceiling `(x + 1) / 2`. */
module SeatUtils {
  import opened Common

  /** calculateCenterSeat: the floor of half the row's seat count. */
  function CalculateCenterSeat(rowSeatCount: int): (r: int)
    ensures 2 * r <= rowSeatCount < 2 * r + 2
  {
    rowSeatCount / 2
  }

  /** calculateMinimumCenterSeat: the floor of half the center seat. */
  function CalculateMinimumCenterSeat(rowSeatCount: int, centerRowSeatCount: int): (r: Result<int>)
    ensures r.Err? <==> rowSeatCount < centerRowSeatCount
    ensures r.Err? ==> r.error == IllegalArgument(CENTER_ROW_SEAT_COUNT_EXCEEDS_ROW_SIZE)
    ensures r.Ok? ==> 2 * r.value <= CalculateCenterSeat(rowSeatCount) < 2 * r.value + 2
    ensures r.Ok? ==> 4 * r.value <= rowSeatCount < 4 * r.value + 4
  {
    if rowSeatCount < centerRowSeatCount then
      Err(IllegalArgument(CENTER_ROW_SEAT_COUNT_EXCEEDS_ROW_SIZE))
    else
      var middleSeat := CalculateCenterSeat(rowSeatCount);
      Ok(middleSeat / 2)
  }

  /** calculateMaximumCenterSeat: the ceiling of half the center seat. */
  function CalculateMaximumCenterSeat(rowSeatCount: int, centerRowSeatCount: int): (r: Result<int>)
    ensures r.Err? <==> rowSeatCount < centerRowSeatCount
    ensures r.Err? ==> r.error == IllegalArgument(CENTER_ROW_SEAT_COUNT_EXCEEDS_ROW_SIZE)
    ensures r.Ok? ==> 2 * r.value - 2 < CalculateCenterSeat(rowSeatCount) <= 2 * r.value
  {
    if rowSeatCount < centerRowSeatCount then
      Err(IllegalArgument(CENTER_ROW_SEAT_COUNT_EXCEEDS_ROW_SIZE))
    else
      var middleSeat := CalculateCenterSeat(rowSeatCount);
      Ok((middleSeat + 1) / 2)
  }

  /** calculateMinimumCenterRowSeatNumber: the same guard, then the minimum center seat. */
  function CalculateMinimumCenterRowSeatNumber(rowSeatCount: int, centerRowSeatCount: int): (r: Result<int>)
    ensures r == CalculateMinimumCenterSeat(rowSeatCount, centerRowSeatCount)
  {
    if rowSeatCount < centerRowSeatCount then
      Err(IllegalArgument(CENTER_ROW_SEAT_COUNT_EXCEEDS_ROW_SIZE))
    else
      CalculateMinimumCenterSeat(rowSeatCount, centerRowSeatCount)
  }

  /** calculateMaximumCenterRowSeatNumber: the same guard, then the maximum center seat. */
  function CalculateMaximumCenterRowSeatNumber(rowSeatCount: int, centerRowSeatCount: int): (r: Result<int>)
    ensures r == CalculateMaximumCenterSeat(rowSeatCount, centerRowSeatCount)
  {
    if rowSeatCount < centerRowSeatCount then
      Err(IllegalArgument(CENTER_ROW_SEAT_COUNT_EXCEEDS_ROW_SIZE))
    else
      CalculateMaximumCenterSeat(rowSeatCount, centerRowSeatCount)
  }

  /** The center-row span is one or two seats wide: min <= max <= min + 1. */
  lemma MinimumAtMostMaximum(rowSeatCount: int, centerRowSeatCount: int)
    requires centerRowSeatCount <= rowSeatCount
    ensures CalculateMinimumCenterSeat(rowSeatCount, centerRowSeatCount).Ok?
    ensures CalculateMaximumCenterSeat(rowSeatCount, centerRowSeatCount).Ok?
    ensures var lo := CalculateMinimumCenterSeat(rowSeatCount, centerRowSeatCount).value;
            var hi := CalculateMaximumCenterSeat(rowSeatCount, centerRowSeatCount).value;
            lo <= hi <= lo + 1
  {
  }

  /** Once the guard passes, the center-row count plays no part in the result. */
  lemma IndependentOfCenterRowSeatCount(rowSeatCount: int, c1: int, c2: int)
    requires c1 <= rowSeatCount && c2 <= rowSeatCount
    ensures CalculateMinimumCenterSeat(rowSeatCount, c1) == CalculateMinimumCenterSeat(rowSeatCount, c2)
    ensures CalculateMaximumCenterSeat(rowSeatCount, c1) == CalculateMaximumCenterSeat(rowSeatCount, c2)
  {
  }
}
