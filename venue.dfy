/** Venue (seats.model.Venue): the seats of a venue indexed by row number,
    the venue's dimensions, and the seat-state operations its callers use
    (getOpenSeats, holdSeat, reserveSeat, unholdSeat, getRow, getSeatCount and
    Seat.hold on a venue seat). Those operations are not in Venue.java; their
    contracts are taken from the call sites, the tests and the exception
    types. */
module Venues {
  import opened Common
  import opened Seats

  /** Seats by row number, as Venue.seatsByRow. */
  type Grid = map<int, seq<Seat>>

  /** Seat coordinates: row number and 1-based seat number. */
  datatype Pos = Pos(row: int, seat: int)

  function PosOf(s: Seat): Pos {
    Pos(s.rowNumber, s.seatNumber)
  }

  /** The seat at `p` is stored in the grid: the row exists and the seat
      number is within its list. */
  predicate InGrid(m: Grid, p: Pos) {
    p.row in m && 1 <= p.seat <= |m[p.row]|
  }

  /** The grid after applying `op` to the seat stored at `p`; a position that
      is not stored leaves the grid unchanged. */
  function ApplyAt(m: Grid, p: Pos, op: SeatOp): (m': Grid)
    ensures m'.Keys == m.Keys
    ensures forall r :: r in m ==> |m'[r]| == |m[r]|
    ensures InGrid(m, p) ==> m' == m[p.row := m[p.row][p.seat - 1 := ApplyOp(op, m[p.row][p.seat - 1])]]
    ensures !InGrid(m, p) ==> m' == m
  {
    if InGrid(m, p) then
      m[p.row := m[p.row][p.seat - 1 := ApplyOp(op, m[p.row][p.seat - 1])]]
    else
      m
  }

  /** m1 is m0 with `op` applied once to the seat at every position in K and
      every other seat as it was. */
  predicate Applied(m0: Grid, m1: Grid, K: set<Pos>, op: SeatOp) {
    m1.Keys == m0.Keys
    && (forall r :: r in m0 ==> |m1[r]| == |m0[r]|)
    && (forall r, i :: r in m0 && 0 <= i < |m0[r]| ==>
          m1[r][i] == if Pos(r, i + 1) in K then ApplyOp(op, m0[r][i]) else m0[r][i])
  }

  /** The positions of a list of seats. */
  function Positions(seats: seq<Seat>): (K: set<Pos>)
    ensures forall i :: 0 <= i < |seats| ==> PosOf(seats[i]) in K
    ensures forall p :: p in K ==> exists i :: 0 <= i < |seats| && PosOf(seats[i]) == p
  {
    set i | 0 <= i < |seats| :: PosOf(seats[i])
  }

  /** No two seats of the list share coordinates. */
  predicate DistinctPositions(seats: seq<Seat>) {
    forall i, j :: 0 <= i < j < |seats| ==> PosOf(seats[i]) != PosOf(seats[j])
  }

  lemma PositionsSnoc(seats: seq<Seat>, x: Seat)
    ensures Positions(seats + [x]) == Positions(seats) + {PosOf(x)}
  {
    var a := Positions(seats + [x]);
    var b := Positions(seats) + {PosOf(x)};
    forall p | p in a
      ensures p in b
    {
      var i :| 0 <= i < |seats + [x]| && PosOf((seats + [x])[i]) == p;
      if i < |seats| {
        assert (seats + [x])[i] == seats[i];
      }
    }
    forall p | p in b
      ensures p in a
    {
      if p != PosOf(x) {
        var i :| 0 <= i < |seats| && PosOf(seats[i]) == p;
        assert (seats + [x])[i] == seats[i];
      } else {
        assert (seats + [x])[|seats|] == x;
      }
    }
  }

  /** An operation that does not apply to the stored seat leaves the grid as it was. */
  lemma ApplyAtNoChange(m: Grid, p: Pos, op: SeatOp)
    requires InGrid(m, p) && ApplyOp(op, m[p.row][p.seat - 1]) == m[p.row][p.seat - 1]
    ensures ApplyAt(m, p, op) == m
  {
    assert m[p.row][p.seat - 1 := m[p.row][p.seat - 1]] == m[p.row];
  }

  lemma AppliedNothing(m: Grid, op: SeatOp)
    ensures Applied(m, m, {}, op)
  {
  }

  /** Applying `op` at one more position extends the set of applied
      positions; a position applied twice counts once, because every
      operation is idempotent. */
  lemma AppliedStep(m0: Grid, m1: Grid, K: set<Pos>, op: SeatOp, p: Pos)
    requires Applied(m0, m1, K, op)
    ensures Applied(m0, ApplyAt(m1, p, op), K + {p}, op)
  {
    var m2 := ApplyAt(m1, p, op);
    forall r, i | r in m0 && 0 <= i < |m0[r]|
      ensures m2[r][i] == if Pos(r, i + 1) in K + {p} then ApplyOp(op, m0[r][i]) else m0[r][i]
    {
      if Pos(r, i + 1) == p {
        ApplyOpIdempotent(op, m0[r][i]);
      }
    }
  }

  /** Every seat of the grid changes only along the lifecycle. */
  lemma AppliedFollowsLifecycle(m0: Grid, m1: Grid, K: set<Pos>, op: SeatOp)
    requires Applied(m0, m1, K, op)
    ensures forall r, i :: r in m0 && 0 <= i < |m0[r]| ==> Step(m0[r][i].status, m1[r][i].status)
  {
  }

  /** Two rounds of `op` amount to one round over both sets of positions. */
  lemma AppliedCompose(m0: Grid, m1: Grid, m2: Grid, K1: set<Pos>, K2: set<Pos>, op: SeatOp)
    requires Applied(m0, m1, K1, op) && Applied(m1, m2, K2, op)
    ensures Applied(m0, m2, K1 + K2, op)
  {
    forall r, i | r in m0 && 0 <= i < |m0[r]|
      ensures m2[r][i] == if Pos(r, i + 1) in K1 + K2 then ApplyOp(op, m0[r][i]) else m0[r][i]
    {
      ApplyOpIdempotent(op, m0[r][i]);
    }
  }

  /** Applying an operation keeps which positions are stored. */
  lemma AppliedSameShape(m0: Grid, m1: Grid, K: set<Pos>, op: SeatOp)
    requires Applied(m0, m1, K, op)
    ensures forall p :: InGrid(m0, p) <==> InGrid(m1, p)
  {
  }

  /** m1 is m0 where some seats at positions in K, and no others, had `op`
      applied: the state after a round of `op` that stopped part way. */
  predicate ChangedWithin(m0: Grid, m1: Grid, K: set<Pos>, op: SeatOp) {
    m1.Keys == m0.Keys
    && (forall r :: r in m0 ==> |m1[r]| == |m0[r]|)
    && (forall r, i :: r in m0 && 0 <= i < |m0[r]| ==>
          m1[r][i] == m0[r][i] || (Pos(r, i + 1) in K && m1[r][i] == ApplyOp(op, m0[r][i])))
  }

  lemma AppliedChangedWithin(m0: Grid, m1: Grid, K: set<Pos>, K': set<Pos>, op: SeatOp)
    requires Applied(m0, m1, K, op) && K <= K'
    ensures ChangedWithin(m0, m1, K', op)
  {
  }

  lemma ChangedWithinCompose(m0: Grid, m1: Grid, m2: Grid, K1: set<Pos>, K2: set<Pos>, op: SeatOp)
    requires Applied(m0, m1, K1, op) && ChangedWithin(m1, m2, K2, op)
    ensures ChangedWithin(m0, m2, K1 + K2, op)
  {
    forall r, i | r in m0 && 0 <= i < |m0[r]|
      ensures m2[r][i] == m0[r][i] || (Pos(r, i + 1) in K1 + K2 && m2[r][i] == ApplyOp(op, m0[r][i]))
    {
      ApplyOpIdempotent(op, m0[r][i]);
    }
  }

  /** The open seats of a list, in list order. */
  function FilterOpen(s: seq<Seat>): (r: seq<Seat>)
    ensures |r| <= |s|
    ensures forall i :: 0 <= i < |r| ==> r[i] in s && r[i].status.Open?
    ensures forall i :: 0 <= i < |s| && s[i].status.Open? ==> s[i] in r
  {
    if s == [] then []
    else (if s[0].status.Open? then [s[0]] else []) + FilterOpen(s[1..])
  }

  /** The open seats of rows `row`..`rowCount`, row by row. */
  function OpenSeatsFrom(m: Grid, row: int, rowCount: int): seq<Seat>
    decreases rowCount - row
  {
    if row > rowCount then []
    else (if row in m then FilterOpen(m[row]) else []) + OpenSeatsFrom(m, row + 1, rowCount)
  }

  /** The number of seats in rows `row`..`rowCount`. */
  function SeatsFrom(m: Grid, row: int, rowCount: int): int
    decreases rowCount - row
  {
    if row > rowCount then 0
    else (if row in m then |m[row]| else 0) + SeatsFrom(m, row + 1, rowCount)
  }

  /** The shape every venue built by VenueFactory has: rows 1..rowCount are
      present, each with rowSeatCount seats, and seat i of row r carries the
      coordinates (r, i + 1). */
  predicate WellFormedGrid(m: Grid, rowCount: int, rowSeatCount: int) {
    0 <= rowCount && 0 <= rowSeatCount
    && (forall r :: 1 <= r <= rowCount ==> r in m && |m[r]| == rowSeatCount)
    && (forall r, i :: 1 <= r <= rowCount && r in m && 0 <= i < |m[r]| ==>
          m[r][i].rowNumber == r && m[r][i].seatNumber == i + 1)
  }

  /** p names a seat of a well-formed venue. */
  predicate InBounds(rowCount: int, rowSeatCount: int, p: Pos) {
    1 <= p.row <= rowCount && 1 <= p.seat <= rowSeatCount
  }

  /** Lexicographic order of coordinates: row first, then seat. */
  predicate Before(p: Pos, q: Pos) {
    p.row < q.row || (p.row == q.row && p.seat < q.seat)
  }

  /** Seat-state operations keep the venue's shape, since they change only a
      seat's status. */
  lemma ApplyAtKeepsWellFormed(m: Grid, rowCount: int, rowSeatCount: int, p: Pos, op: SeatOp)
    requires WellFormedGrid(m, rowCount, rowSeatCount)
    ensures WellFormedGrid(ApplyAt(m, p, op), rowCount, rowSeatCount)
  {
  }

  /** A round of seat-state operations keeps the venue's shape. */
  lemma AppliedKeepsWellFormed(m0: Grid, m1: Grid, K: set<Pos>, op: SeatOp, rowCount: int, rowSeatCount: int)
    requires Applied(m0, m1, K, op) && WellFormedGrid(m0, rowCount, rowSeatCount)
    ensures WellFormedGrid(m1, rowCount, rowSeatCount)
  {
    forall r, i | 1 <= r <= rowCount && r in m1 && 0 <= i < |m1[r]|
      ensures m1[r][i].rowNumber == r && m1[r][i].seatNumber == i + 1
    {
      assert m1[r][i] == ApplyOp(op, m0[r][i]) || m1[r][i] == m0[r][i];
    }
  }

  /** A venue never has more open seats than seats. */
  lemma {:induction false} OpenAtMostSeats(m: Grid, row: int, rowCount: int)
    ensures |OpenSeatsFrom(m, row, rowCount)| <= SeatsFrom(m, row, rowCount)
    decreases rowCount - row
  {
    if row <= rowCount {
      OpenAtMostSeats(m, row + 1, rowCount);
    }
  }

  /** Two lists of seats whose open seats are the same, at the same places. */
  predicate SameOpen(s: seq<Seat>, t: seq<Seat>) {
    |s| == |t| && forall i :: 0 <= i < |s| ==> (s[i].status.Open? <==> t[i].status.Open?) && (s[i].status.Open? ==> s[i] == t[i])
  }

  lemma {:induction false} FilterOpenSame(s: seq<Seat>, t: seq<Seat>)
    requires SameOpen(s, t)
    ensures FilterOpen(s) == FilterOpen(t)
  {
    if s != [] {
      FilterOpenSame(s[1..], t[1..]);
    }
  }

  /** Reserving seats leaves the list of open seats as it was: a reservation
      only ever turns a held seat into a reserved one. */
  lemma {:induction false} ReserveKeepsOpenSeats(m0: Grid, m1: Grid, K: set<Pos>, email: string, row: int, rowCount: int)
    requires Applied(m0, m1, K, ReserveOp(email))
    ensures OpenSeatsFrom(m1, row, rowCount) == OpenSeatsFrom(m0, row, rowCount)
    decreases rowCount - row
  {
    if row <= rowCount {
      ReserveKeepsOpenSeats(m0, m1, K, email, row + 1, rowCount);
      if row in m0 {
        assert SameOpen(m0[row], m1[row]);
        FilterOpenSame(m0[row], m1[row]);
      }
    }
  }

  /** The open seats of a row whose seats are numbered from `from` upwards
      run in increasing seat order. */
  lemma {:induction false} FilterOpenSorted(s: seq<Seat>, from: int)
    requires forall i :: 0 <= i < |s| ==> s[i].seatNumber == from + i
    ensures forall k, l :: 0 <= k < l < |FilterOpen(s)| ==> FilterOpen(s)[k].seatNumber < FilterOpen(s)[l].seatNumber
  {
    if s != [] {
      FilterOpenSorted(s[1..], from + 1);
      var head := if s[0].status.Open? then [s[0]] else [];
      var tail := FilterOpen(s[1..]);
      assert FilterOpen(s) == head + tail;
      forall k | 0 <= k < |tail|
        ensures tail[k].seatNumber > from
      {
        assert tail[k] in s[1..];
      }
    }
  }

  /** In a well-formed venue, each open seat listed for rows row..rowCount is
      the open seat stored at its own coordinates, and the list runs in row
      order and, within a row, in seat order. */
  lemma {:induction false} OpenSeatsFromAreVenueSeats(m: Grid, row: int, rowCount: int, rowSeatCount: int)
    requires WellFormedGrid(m, rowCount, rowSeatCount) && 1 <= row
    ensures forall k :: 0 <= k < |OpenSeatsFrom(m, row, rowCount)| ==>
              var x := OpenSeatsFrom(m, row, rowCount)[k];
              row <= x.rowNumber <= rowCount && InBounds(rowCount, rowSeatCount, PosOf(x))
              && m[x.rowNumber][x.seatNumber - 1] == x && x.status.Open?
    ensures forall k, l :: 0 <= k < l < |OpenSeatsFrom(m, row, rowCount)| ==>
              Before(PosOf(OpenSeatsFrom(m, row, rowCount)[k]), PosOf(OpenSeatsFrom(m, row, rowCount)[l]))
    decreases rowCount - row
  {
    if row <= rowCount {
      OpenSeatsFromAreVenueSeats(m, row + 1, rowCount, rowSeatCount);
      FilterOpenSorted(m[row], 1);
      var here := FilterOpen(m[row]);
      var rest := OpenSeatsFrom(m, row + 1, rowCount);
      assert OpenSeatsFrom(m, row, rowCount) == here + rest;
      forall k | 0 <= k < |here|
        ensures here[k].rowNumber == row && InBounds(rowCount, rowSeatCount, PosOf(here[k]))
        ensures m[here[k].rowNumber][here[k].seatNumber - 1] == here[k]
      {
        assert here[k] in m[row];
        var i :| 0 <= i < |m[row]| && m[row][i] == here[k];
      }
    }
  }

  /** The open seats of a well-formed venue are pairwise distinct. */
  lemma OpenSeatsDistinct(m: Grid, rowCount: int, rowSeatCount: int)
    requires WellFormedGrid(m, rowCount, rowSeatCount)
    ensures forall k, l :: 0 <= k < l < |OpenSeatsFrom(m, 1, rowCount)| ==>
              PosOf(OpenSeatsFrom(m, 1, rowCount)[k]) != PosOf(OpenSeatsFrom(m, 1, rowCount)[l])
    ensures forall k, l :: 0 <= k < l < |OpenSeatsFrom(m, 1, rowCount)| ==>
              OpenSeatsFrom(m, 1, rowCount)[k] != OpenSeatsFrom(m, 1, rowCount)[l]
  {
    OpenSeatsFromAreVenueSeats(m, 1, rowCount, rowSeatCount);
  }

  /** Every open seat of a well-formed venue is listed among its open seats. */
  lemma {:induction false} OpenSeatsFromComplete(m: Grid, row: int, rowCount: int, p: Pos)
    requires InGrid(m, p) && row <= p.row <= rowCount && m[p.row][p.seat - 1].status.Open?
    ensures m[p.row][p.seat - 1] in OpenSeatsFrom(m, row, rowCount)
    decreases rowCount - row
  {
    var here := if row in m then FilterOpen(m[row]) else [];
    var rest := OpenSeatsFrom(m, row + 1, rowCount);
    assert OpenSeatsFrom(m, row, rowCount) == here + rest;
    if row < p.row {
      OpenSeatsFromComplete(m, row + 1, rowCount, p);
    } else {
      assert m[p.row][p.seat - 1] in here;
    }
  }

  lemma {:induction false} FilterOpenUpdate(s: seq<Seat>, i: int, t: Seat)
    requires 0 <= i < |s|
    ensures |FilterOpen(s[i := t])| == |FilterOpen(s)|
              - (if s[i].status.Open? then 1 else 0) + (if t.status.Open? then 1 else 0)
  {
    if i == 0 {
      assert s[i := t][1..] == s[1..];
    } else {
      FilterOpenUpdate(s[1..], i - 1, t);
      assert s[i := t][1..] == s[1..][i - 1 := t];
    }
  }

  /** Changing one stored seat changes the number of open seats in rows
      row..rowCount by the change in that seat's openness. */
  lemma {:induction false} OpenCountUpdate(m: Grid, row: int, rowCount: int, p: Pos, t: Seat)
    requires InGrid(m, p) && row <= p.row <= rowCount
    ensures |OpenSeatsFrom(m[p.row := m[p.row][p.seat - 1 := t]], row, rowCount)|
         == |OpenSeatsFrom(m, row, rowCount)|
            - (if m[p.row][p.seat - 1].status.Open? then 1 else 0) + (if t.status.Open? then 1 else 0)
    decreases rowCount - row
  {
    var m' := m[p.row := m[p.row][p.seat - 1 := t]];
    if row < p.row {
      OpenCountUpdate(m, row + 1, rowCount, p, t);
    } else {
      FilterOpenUpdate(m[p.row], p.seat - 1, t);
      OpenSeatsUnchanged(m, m', row + 1, rowCount, p.row);
    }
  }

  lemma {:induction false} OpenSeatsUnchanged(m: Grid, m': Grid, row: int, rowCount: int, changed: int)
    requires changed < row
    requires forall r :: row <= r <= rowCount ==> (r in m <==> r in m') && (r in m ==> m[r] == m'[r])
    ensures OpenSeatsFrom(m', row, rowCount) == OpenSeatsFrom(m, row, rowCount)
    decreases rowCount - row
  {
    if row <= rowCount {
      OpenSeatsUnchanged(m, m', row + 1, rowCount, changed);
    }
  }

  /** Holding an open seat of a well-formed venue removes exactly one seat
      from the open seats. */
  lemma HoldRemovesOneOpenSeat(m: Grid, rowCount: int, rowSeatCount: int, p: Pos, email: string)
    requires WellFormedGrid(m, rowCount, rowSeatCount) && InBounds(rowCount, rowSeatCount, p)
    requires m[p.row][p.seat - 1].status.Open?
    ensures |OpenSeatsFrom(ApplyAt(m, p, HoldOp(email)), 1, rowCount)| == |OpenSeatsFrom(m, 1, rowCount)| - 1
  {
    assert InGrid(m, p);
    var t := ApplyOp(HoldOp(email), m[p.row][p.seat - 1]);
    assert t.status == Held(email);
    assert ApplyAt(m, p, HoldOp(email)) == m[p.row := m[p.row][p.seat - 1 := t]];
    OpenCountUpdate(m, 1, rowCount, p, t);
  }

  lemma {:induction false} AllOpenCount(m: Grid, row: int, rowCount: int, rowSeatCount: int)
    requires WellFormedGrid(m, rowCount, rowSeatCount) && 1 <= row
    requires forall r, i :: 1 <= r <= rowCount && r in m && 0 <= i < |m[r]| ==> m[r][i].status.Open?
    ensures |OpenSeatsFrom(m, row, rowCount)| == SeatsFrom(m, row, rowCount)
    decreases rowCount - row
  {
    if row <= rowCount {
      AllOpenCount(m, row + 1, rowCount, rowSeatCount);
      AllOpenFilter(m[row]);
    }
  }

  lemma {:induction false} AllOpenFilter(s: seq<Seat>)
    requires forall i :: 0 <= i < |s| ==> s[i].status.Open?
    ensures FilterOpen(s) == s
  {
    if s != [] {
      AllOpenFilter(s[1..]);
    }
  }

  class Venue {
    var seatsByRow: Grid
    var centerRowSize: int
    var rowCount: int
    var rowSeatCount: int

    /** `new Venue()`: no rows and zero dimensions. */
    constructor ()
      ensures seatsByRow == map[] && centerRowSize == 0 && rowCount == 0 && rowSeatCount == 0
    {
      seatsByRow := map[];
      centerRowSize := 0;
      rowCount := 0;
      rowSeatCount := 0;
    }

    predicate WellFormed()
      reads this
    {
      WellFormedGrid(seatsByRow, rowCount, rowSeatCount)
    }

    /** getSeatsByRow(row): rejects a row below 1 or above rowCount, and
        otherwise answers the list stored for that row, or null. */
    function GetSeatsByRow(row: int): (r: Result<Option<seq<Seat>>>)
      reads this
      ensures r.Err? <==> row < 1 || rowCount < row
      ensures row < 1 ==> r == Err(IllegalArgument(ROW_NUMBERS_MUST_BE_GREATER_THAN_OR_EQUAL_TO_ONE))
      ensures 1 <= row && rowCount < row ==> r == Err(IllegalArgument(ROW_NUMBER_DOES_NOT_EXIST))
      ensures r.Ok? ==> (r.value.Some? <==> row in seatsByRow)
      ensures r.Ok? && r.value.Some? ==> r.value.value == seatsByRow[row]
    {
      if row < 1 then Err(IllegalArgument(ROW_NUMBERS_MUST_BE_GREATER_THAN_OR_EQUAL_TO_ONE))
      else if row > rowCount then Err(IllegalArgument(ROW_NUMBER_DOES_NOT_EXIST))
      else if row in seatsByRow then Ok(Some(seatsByRow[row]))
      else Ok(None)
    }

    /** getRow(row): the same checks as getSeatsByRow, then the row with its
        seats (none when nothing is stored for it). */
    function GetRow(row: int): (r: Result<Row>)
      reads this
      ensures r.Err? <==> GetSeatsByRow(row).Err?
      ensures r.Err? ==> r.error == GetSeatsByRow(row).error
      ensures r.Ok? ==> r.value.rowNumber == row
      ensures r.Ok? && row in seatsByRow ==> r.value.seats == seatsByRow[row]
      ensures WellFormed() && r.Ok? ==> SeatCount(r.value) == rowSeatCount
    {
      match GetSeatsByRow(row)
      case Err(e) => Err(e)
      case Ok(None) => Ok(Row(row, []))
      case Ok(Some(seats)) => Ok(Row(row, seats))
    }

    /** addSeatsForRow(row, seats): rejects a row below 1; otherwise stores the
        list for that row, replacing what was there. */
    method AddSeatsForRow(row: int, seats: seq<Seat>) returns (o: Outcome)
      modifies this`seatsByRow
      ensures o.Fail? <==> row <= 0
      ensures o.Fail? ==> o.error == IllegalArgument(ROW_NUMBERS_MUST_BE_GREATER_THAN_OR_EQUAL_TO_ONE)
      ensures o.Fail? ==> seatsByRow == old(seatsByRow)
      ensures o.Pass? ==> seatsByRow == old(seatsByRow)[row := seats]
      ensures o.Pass? && row <= rowCount ==> GetSeatsByRow(row) == Ok(Some(seats))
      ensures forall r :: r != row ==> GetSeatsByRow(r) == old(GetSeatsByRow(r))
    {
      if row <= 0 {
        return Fail(IllegalArgument(ROW_NUMBERS_MUST_BE_GREATER_THAN_OR_EQUAL_TO_ONE));
      }
      seatsByRow := seatsByRow[row := seats];
      return Pass;
    }

    method SetSeatsByRow(m: Grid)
      modifies this`seatsByRow
      ensures seatsByRow == m
    {
      seatsByRow := m;
    }

    method SetCenterRowSize(n: int)
      modifies this`centerRowSize
      ensures centerRowSize == n
    {
      centerRowSize := n;
    }

    method SetRowCount(n: int)
      modifies this`rowCount
      ensures rowCount == n
    {
      rowCount := n;
    }

    method SetRowSeatCount(n: int)
      modifies this`rowSeatCount
      ensures rowSeatCount == n
    {
      rowSeatCount := n;
    }

    /** The coordinates name a seat of this venue: the row is within
        1..rowCount and stored, the seat within 1..rowSeatCount and stored. */
    predicate HasSeat(p: Pos)
      reads this
    {
      1 <= p.row <= rowCount && 1 <= p.seat <= rowSeatCount && InGrid(seatsByRow, p)
    }

    function SeatAt(p: Pos): Seat
      reads this
      requires HasSeat(p)
    {
      seatsByRow[p.row][p.seat - 1]
    }

    /** The IllegalArgumentException a seat operation throws for coordinates
        that name no seat, or None. */
    function CoordinateError(p: Pos): (r: Option<Error>)
      reads this
      ensures r.None? <==> HasSeat(p)
      ensures r.Some? ==> r.value.IllegalArgument?
      ensures p.row < 1 ==> r == Some(IllegalArgument(ROW_NUMBERS_MUST_BE_GREATER_THAN_OR_EQUAL_TO_ONE))
    {
      if p.row < 1 then Some(IllegalArgument(ROW_NUMBERS_MUST_BE_GREATER_THAN_OR_EQUAL_TO_ONE))
      else if p.row > rowCount then Some(IllegalArgument(ROW_NUMBER_DOES_NOT_EXIST))
      else if !(1 <= p.seat <= rowSeatCount && InGrid(seatsByRow, p)) then Some(IllegalArgument(SEAT_DOES_NOT_EXIST))
      else None
    }

    /** getOpenSeats: the open seats of rows 1..rowCount, row by row. */
    function GetOpenSeats(): (r: seq<Seat>)
      reads this
      ensures forall k :: 0 <= k < |r| ==> r[k].status.Open?
    {
      OpenSeatsAreOpen(seatsByRow, 1, rowCount);
      OpenSeatsFrom(seatsByRow, 1, rowCount)
    }

    /** In a well-formed venue each listed open seat is the seat stored at its
        own coordinates. */
    lemma OpenSeatsAreVenueSeats()
      requires WellFormed()
      ensures forall k :: 0 <= k < |GetOpenSeats()| ==>
                HasSeat(PosOf(GetOpenSeats()[k])) && SeatAt(PosOf(GetOpenSeats()[k])) == GetOpenSeats()[k]
    {
      OpenSeatsFromAreVenueSeats(seatsByRow, 1, rowCount, rowSeatCount);
    }

    /** In a well-formed venue every open seat is listed by getOpenSeats. */
    lemma OpenSeatsComplete()
      requires WellFormed()
      ensures forall p :: HasSeat(p) && SeatAt(p).status.Open? ==> SeatAt(p) in GetOpenSeats()
    {
      forall p | HasSeat(p) && SeatAt(p).status.Open?
        ensures SeatAt(p) in GetOpenSeats()
      {
        OpenSeatsFromComplete(seatsByRow, 1, rowCount, p);
      }
    }

    /** getSeatCount: the number of seats in rows 1..rowCount. */
    function GetSeatCount(): (n: int)
      reads this
      ensures WellFormed() ==> n == rowCount * rowSeatCount
    {
      if WellFormed() then
        SeatCountOfWellFormed(seatsByRow, 1, rowCount, rowSeatCount);
        SeatsFrom(seatsByRow, 1, rowCount)
      else
        SeatsFrom(seatsByRow, 1, rowCount)
    }

    /** holdSeat(row, seat, email): rejects coordinates that name no seat and a
        null or blank e-mail with IllegalArgumentException, a seat that is not
        open with SeatUnavailableException; otherwise holds the seat for the
        e-mail and returns it. */
    method HoldSeat(row: int, seatNumber: int, email: Option<string>) returns (r: Result<Seat>)
      modifies this`seatsByRow
      ensures var p := Pos(row, seatNumber);
              r.Err? ==> seatsByRow == old(seatsByRow)
      ensures var p := Pos(row, seatNumber);
              !old(HasSeat(p)) ==> r == Err(old(CoordinateError(p)).value)
      ensures var p := Pos(row, seatNumber);
              old(HasSeat(p)) && IsBlank(email) ==> r == Err(IllegalArgument(EMAIL_ADDRESS_IS_NULL_OR_BLANK))
      ensures var p := Pos(row, seatNumber);
              old(HasSeat(p)) && !IsBlank(email) && !old(SeatAt(p)).status.Open? ==>
                r == Err(SeatUnavailable(SEAT_IS_NOT_OPEN))
      ensures var p := Pos(row, seatNumber);
              r.Ok? <==> old(HasSeat(p)) && !IsBlank(email) && old(SeatAt(p)).status.Open?
      ensures var p := Pos(row, seatNumber);
              r.Ok? ==> seatsByRow == ApplyAt(old(seatsByRow), p, HoldOp(email.value))
                        && r.value == old(SeatAt(p)).(status := Held(email.value))
                        && HasSeat(p) && SeatAt(p) == r.value
    {
      var p := Pos(row, seatNumber);
      var e := CoordinateError(p);
      if e.Some? {
        return Err(e.value);
      }
      if IsBlank(email) {
        return Err(IllegalArgument(EMAIL_ADDRESS_IS_NULL_OR_BLANK));
      }
      var seat := SeatAt(p);
      var op := HoldOp(email.value);
      var failure := OpError(op, seat);
      if failure.Some? {
        return Err(failure.value);
      }
      seatsByRow := ApplyAt(seatsByRow, p, op);
      return Ok(SeatAt(p));
    }

    /** reserveSeat(row, seat, email): rejects coordinates that name no seat
        and a null or blank e-mail with IllegalArgumentException, a seat not
        held by that e-mail with SeatUnavailableException; otherwise reserves
        the seat for the e-mail. */
    method ReserveSeat(row: int, seatNumber: int, email: Option<string>) returns (o: Outcome)
      modifies this`seatsByRow
      ensures var p := Pos(row, seatNumber);
              !old(HasSeat(p)) ==> o == Fail(old(CoordinateError(p)).value)
      ensures var p := Pos(row, seatNumber);
              old(HasSeat(p)) && IsBlank(email) ==> o == Fail(IllegalArgument(EMAIL_ADDRESS_IS_NULL_OR_BLANK))
      ensures var p := Pos(row, seatNumber);
              old(HasSeat(p)) && !IsBlank(email) ==>
                o == (match OpError(ReserveOp(email.value), old(SeatAt(p))) case None => Pass case Some(e) => Fail(e))
      ensures var p := Pos(row, seatNumber);
              o.Fail? && o.error.IllegalArgument? ==> seatsByRow == old(seatsByRow)
      ensures var p := Pos(row, seatNumber);
              !(o.Fail? && o.error.IllegalArgument?) ==>
                !IsBlank(email) && seatsByRow == ApplyAt(old(seatsByRow), p, ReserveOp(email.value))
    {
      var p := Pos(row, seatNumber);
      var e := CoordinateError(p);
      if e.Some? {
        return Fail(e.value);
      }
      if IsBlank(email) {
        return Fail(IllegalArgument(EMAIL_ADDRESS_IS_NULL_OR_BLANK));
      }
      var op := ReserveOp(email.value);
      var failure := OpError(op, SeatAt(p));
      if failure.Some? {
        ApplyAtNoChange(seatsByRow, p, op);
        return Fail(failure.value);
      }
      seatsByRow := ApplyAt(seatsByRow, p, op);
      return Pass;
    }

    /** unholdSeat(row, seat): rejects coordinates that name no seat with
        IllegalArgumentException, a seat that is not held with
        SeatNotHeldException; otherwise opens the seat again. */
    method UnholdSeat(row: int, seatNumber: int) returns (o: Outcome)
      modifies this`seatsByRow
      ensures var p := Pos(row, seatNumber);
              !old(HasSeat(p)) ==> o == Fail(old(CoordinateError(p)).value)
      ensures var p := Pos(row, seatNumber);
              old(HasSeat(p)) ==>
                o == (match OpError(ReleaseOp, old(SeatAt(p))) case None => Pass case Some(e) => Fail(e))
      ensures var p := Pos(row, seatNumber);
              o.Fail? && o.error.IllegalArgument? ==> seatsByRow == old(seatsByRow)
      ensures var p := Pos(row, seatNumber);
              !(o.Fail? && o.error.IllegalArgument?) ==> seatsByRow == ApplyAt(old(seatsByRow), p, ReleaseOp)
    {
      var p := Pos(row, seatNumber);
      var e := CoordinateError(p);
      if e.Some? {
        return Fail(e.value);
      }
      var failure := OpError(ReleaseOp, SeatAt(p));
      if failure.Some? {
        ApplyAtNoChange(seatsByRow, p, ReleaseOp);
        return Fail(failure.value);
      }
      seatsByRow := ApplyAt(seatsByRow, p, ReleaseOp);
      return Pass;
    }

    /** Seat.hold(email) called on a seat of this venue: an open seat becomes
        held for the e-mail; the seat is found by its coordinates. */
    method HoldSeatObject(s: Seat, email: string)
      modifies this`seatsByRow
      ensures seatsByRow == ApplyAt(old(seatsByRow), PosOf(s), HoldOp(email))
    {
      seatsByRow := ApplyAt(seatsByRow, PosOf(s), HoldOp(email));
    }
  }

  lemma {:induction false} OpenSeatsAreOpen(m: Grid, row: int, rowCount: int)
    ensures forall k :: 0 <= k < |OpenSeatsFrom(m, row, rowCount)| ==> OpenSeatsFrom(m, row, rowCount)[k].status.Open?
    decreases rowCount - row
  {
    if row <= rowCount {
      OpenSeatsAreOpen(m, row + 1, rowCount);
    }
  }

  lemma {:induction false} SeatCountOfWellFormed(m: Grid, row: int, rowCount: int, rowSeatCount: int)
    requires WellFormedGrid(m, rowCount, rowSeatCount) && 1 <= row
    ensures SeatsFrom(m, row, rowCount) == (if row <= rowCount then (rowCount - row + 1) * rowSeatCount else 0)
    decreases rowCount - row
  {
    if row <= rowCount {
      SeatCountOfWellFormed(m, row + 1, rowCount, rowSeatCount);
    }
  }
}
