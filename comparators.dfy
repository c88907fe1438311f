/** The two seat comparators (seats.model.RowPrioritizedSeatComparator and
    seats.model.ComprehensiveSeatComparator). Both compute in Java's 32-bit
    int, so every product, sum and difference wraps around (Common.Wrap). */
module Comparators {
  import opened Common
  import opened Seats

  datatype SeatComparator = RowPrioritized | Comprehensive

  // ComprehensiveSeatComparator's weights
  const CENTER_SEAT_WEIGHT: int := 3
  const CENTER_ROW_WEIGHT: int := 2
  const AISLE_SEAT_WEIGHT: int := 1
  const DEFAULT_WEIGHT: int := 0
  const ROW_MULTIPLIER: int := 10

  /** The flag part of a seat's score, from 0 to 6. */
  function FlagWeight(s: Seat): (w: int)
    ensures 0 <= w <= AISLE_SEAT_WEIGHT + CENTER_ROW_WEIGHT + CENTER_SEAT_WEIGHT
  {
    (if s.aisleSeat then AISLE_SEAT_WEIGHT else DEFAULT_WEIGHT)
    + (if s.centerRow then CENTER_ROW_WEIGHT else DEFAULT_WEIGHT)
    + (if s.centerSeat then CENTER_SEAT_WEIGHT else DEFAULT_WEIGHT)
  }

  /** The score in unbounded arithmetic: ten per row plus the flag weights. */
  function ExactScore(s: Seat): int {
    s.rowNumber * ROW_MULTIPLIER + FlagWeight(s)
  }

  /** Rows for which no score and no score difference leaves the int range. */
  predicate SafeRow(row: int) {
    0 <= row <= (INT_MAX - 6) / ROW_MULTIPLIER
  }

  /** Wrapping depends only on the value modulo 2^32. */
  lemma WrapCongruent(x: int, y: int)
    requires (x - y) % INT_RANGE == 0
    ensures Wrap(x) == Wrap(y)
  {
    var k := (x - y) / INT_RANGE;
    assert x - INT_MIN == (y - INT_MIN) + k * INT_RANGE;
    ModuloShift(y - INT_MIN, k);
  }

  lemma ModuloShift(a: int, k: int)
    ensures (a + k * INT_RANGE) % INT_RANGE == a % INT_RANGE
  {
  }

  /** Two values that agree modulo 2^32 on both sides of a sum agree on the sum. */
  lemma SumCongruent(a: int, b: int, a': int, b': int)
    requires (a - a') % INT_RANGE == 0 && (b - b') % INT_RANGE == 0
    ensures ((a + b) - (a' + b')) % INT_RANGE == 0
  {
    var i := (a - a') / INT_RANGE;
    var j := (b - b') / INT_RANGE;
    assert (a + b) - (a' + b') == (i + j) * INT_RANGE;
    ModuloShift(0, i + j);
  }

  /** The same for a difference. */
  lemma DifferenceCongruent(a: int, b: int, a': int, b': int)
    requires (a - a') % INT_RANGE == 0 && (b - b') % INT_RANGE == 0
    ensures ((a - b) - (a' - b')) % INT_RANGE == 0
  {
    var i := (a - a') / INT_RANGE;
    var j := (b - b') / INT_RANGE;
    assert (a - b) - (a' - b') == (i - j) * INT_RANGE;
    ModuloShift(0, i - j);
  }

  /** ComprehensiveSeatComparator.scoreSeat, step by step in int arithmetic. */
  function ScoreSeat(s: Seat): (r: int)
    ensures IsInt(r)
    ensures (r - ExactScore(s)) % INT_RANGE == 0
    ensures SafeRow(s.rowNumber) ==> r == ExactScore(s)
  {
    var score0 := 0;
    var score1 := Wrap(score0 + Wrap(s.rowNumber * ROW_MULTIPLIER));
    var score2 := if s.aisleSeat then Wrap(score1 + AISLE_SEAT_WEIGHT) else score1;
    var score3 := if s.centerRow then Wrap(score2 + CENTER_ROW_WEIGHT) else score2;
    var score4 := if s.centerSeat then Wrap(score3 + CENTER_SEAT_WEIGHT) else score3;
    ScoreCongruent(s, score1, score2, score3, score4);
    score4
  }

  lemma ScoreCongruent(s: Seat, score1: int, score2: int, score3: int, score4: int)
    requires score1 == Wrap(Wrap(s.rowNumber * ROW_MULTIPLIER))
    requires score2 == if s.aisleSeat then Wrap(score1 + AISLE_SEAT_WEIGHT) else score1
    requires score3 == if s.centerRow then Wrap(score2 + CENTER_ROW_WEIGHT) else score2
    requires score4 == if s.centerSeat then Wrap(score3 + CENTER_SEAT_WEIGHT) else score3
    ensures (score4 - ExactScore(s)) % INT_RANGE == 0
  {
    var a := if s.aisleSeat then AISLE_SEAT_WEIGHT else DEFAULT_WEIGHT;
    var c := if s.centerRow then CENTER_ROW_WEIGHT else DEFAULT_WEIGHT;
    var m := if s.centerSeat then CENTER_SEAT_WEIGHT else DEFAULT_WEIGHT;
    var w := Wrap(s.rowNumber * ROW_MULTIPLIER);
    SumCongruent(score1 - w, w, 0, s.rowNumber * ROW_MULTIPLIER);
    SumCongruent(score2 - (score1 + a), score1 + a, 0, s.rowNumber * ROW_MULTIPLIER + a);
    SumCongruent(score3 - (score2 + c), score2 + c, 0, s.rowNumber * ROW_MULTIPLIER + a + c);
    SumCongruent(score4 - (score3 + m), score3 + m, 0, s.rowNumber * ROW_MULTIPLIER + a + c + m);
  }

  /** Comparator.compare for the two comparators: RowPrioritized subtracts
      row numbers, Comprehensive subtracts the int scores. For any rows the
      answer is the difference of the comparator's keys in unbounded
      arithmetic, wrapped to int, and is that difference whenever it fits. */
  function CompareSeats(c: SeatComparator, a: Seat, b: Seat): (r: int)
    ensures IsInt(r)
    ensures r == Wrap(Key(c, a) - Key(c, b))
    ensures IsInt(Key(c, a) - Key(c, b)) ==> r == Key(c, a) - Key(c, b)
  {
    match c
    case RowPrioritized => Wrap(a.rowNumber - b.rowNumber)
    case Comprehensive =>
      DifferenceCongruent(ScoreSeat(a), ScoreSeat(b), ExactScore(a), ExactScore(b));
      WrapCongruent(ScoreSeat(a) - ScoreSeat(b), ExactScore(a) - ExactScore(b));
      Wrap(ScoreSeat(a) - ScoreSeat(b))
  }

  /** The quantity each comparator orders by. */
  function Key(c: SeatComparator, s: Seat): int {
    match c
    case RowPrioritized => s.rowNumber
    case Comprehensive => ExactScore(s)
  }

  /** Comprehensive: the score is ten per row plus one for an aisle seat, two
      for a center-row seat and three for the center seat, so it lies between
      ten times the row and six more than that. */
  lemma ScoreSeatExact(s: Seat)
    requires SafeRow(s.rowNumber)
    ensures ScoreSeat(s) == 10 * s.rowNumber
              + (if s.aisleSeat then 1 else 0)
              + (if s.centerRow then 2 else 0)
              + (if s.centerSeat then 3 else 0)
    ensures 10 * s.rowNumber <= ScoreSeat(s) <= 10 * s.rowNumber + 6
  {
  }

  /** On rows in the safe range both comparators return the difference of
      their keys, with no wrap-around. */
  lemma CompareIsKeyDifference(c: SeatComparator, a: Seat, b: Seat)
    requires SafeRow(a.rowNumber) && SafeRow(b.rowNumber)
    ensures CompareSeats(c, a, b) == Key(c, a) - Key(c, b)
  {
  }

  /** A seat compares equal to itself under both comparators, for any row. */
  lemma CompareReflexive(c: SeatComparator, a: Seat)
    ensures CompareSeats(c, a, a) == 0
  {
  }

  /** Comprehensive: on safe rows, swapping the arguments negates the result,
      a lower row always compares less whatever the flags, and the order by
      sign is transitive. */
  lemma ComprehensiveOrdering(a: Seat, b: Seat, d: Seat)
    requires SafeRow(a.rowNumber) && SafeRow(b.rowNumber) && SafeRow(d.rowNumber)
    ensures CompareSeats(Comprehensive, a, b) == -CompareSeats(Comprehensive, b, a)
    ensures a.rowNumber < b.rowNumber ==> CompareSeats(Comprehensive, a, b) < 0
    ensures (CompareSeats(Comprehensive, a, b) <= 0 && CompareSeats(Comprehensive, b, d) <= 0)
            ==> CompareSeats(Comprehensive, a, d) <= 0
    ensures (CompareSeats(Comprehensive, a, b) < 0 && CompareSeats(Comprehensive, b, d) <= 0)
            ==> CompareSeats(Comprehensive, a, d) < 0
  {
    CompareIsKeyDifference(Comprehensive, a, b);
    CompareIsKeyDifference(Comprehensive, b, a);
    CompareIsKeyDifference(Comprehensive, b, d);
    CompareIsKeyDifference(Comprehensive, a, d);
  }

  /** Comprehensive beyond the safe range: with rows 1 and 214748366 the score
      difference leaves the int range and the seat nearer the stage compares
      greater. */
  lemma ComprehensiveOverflowExample()
    ensures var near := NewSeat().(rowNumber := 1);
            var far := NewSeat().(rowNumber := 214748366);
            IsInt(far.rowNumber) && CompareSeats(Comprehensive, near, far) > 0
  {
    var near := NewSeat().(rowNumber := 1);
    var far := NewSeat().(rowNumber := 214748366);
    assert ExactScore(near) - ExactScore(far) == -2147483650;
  }

  /** RowPrioritized, for any non-negative int rows: the result is negative
      iff the first seat is in a lower row, zero iff both share a row whatever
      their other fields; swapping negates it; the order is transitive. */
  lemma RowPrioritizedOrdering(a: Seat, b: Seat, d: Seat)
    requires 0 <= a.rowNumber <= INT_MAX && 0 <= b.rowNumber <= INT_MAX && 0 <= d.rowNumber <= INT_MAX
    ensures CompareSeats(RowPrioritized, a, b) == a.rowNumber - b.rowNumber
    ensures CompareSeats(RowPrioritized, a, b) < 0 <==> a.rowNumber < b.rowNumber
    ensures CompareSeats(RowPrioritized, a, b) == 0 <==> a.rowNumber == b.rowNumber
    ensures CompareSeats(RowPrioritized, a, b) == -CompareSeats(RowPrioritized, b, a)
    ensures (CompareSeats(RowPrioritized, a, b) <= 0 && CompareSeats(RowPrioritized, b, d) <= 0)
            ==> CompareSeats(RowPrioritized, a, d) <= 0
  {
  }
}
