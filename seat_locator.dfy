/** ComparatorBasedSeatLocatorService (seats.services): the best open seats of
    a venue under a seat comparator. Collections.sort is a stable sort; it is
    modelled here by a stable insertion sort over the same comparator, which
    yields the same list whenever the comparator is a consistent order (on
    rows where neither comparator overflows, see Comparators.SafeRow). */
module SeatLocator {
  import opened Common
  import opened Seats
  import opened Comparators
  import opened Venues

  /** Insert x after every element that does not compare greater than it. */
  function Insert(c: SeatComparator, x: Seat, s: seq<Seat>): (r: seq<Seat>)
    ensures |r| == |s| + 1
    ensures multiset(r) == multiset(s) + multiset{x}
  {
    if s == [] then [x]
    else if CompareSeats(c, x, s[0]) < 0 then [x] + s
    else
      assert s == [s[0]] + s[1..];
      [s[0]] + Insert(c, x, s[1..])
  }

  /** Collections.sort(list, comparator): insertion sort, each element placed
      after the elements of equal rank that preceded it. */
  function StableSort(c: SeatComparator, s: seq<Seat>): (r: seq<Seat>)
    ensures |r| == |s|
    ensures multiset(r) == multiset(s)
  {
    if s == [] then []
    else
      assert s == s[..|s| - 1] + [s[|s| - 1]];
      Insert(c, s[|s| - 1], StableSort(c, s[..|s| - 1]))
  }

  /** Every seat lies in a row where the comparator's arithmetic stays in range. */
  predicate AllSafe(s: seq<Seat>) {
    forall i :: 0 <= i < |s| ==> SafeRow(s[i].rowNumber)
  }

  /** Non-decreasing by the comparator's key. */
  predicate SortedBy(c: SeatComparator, s: seq<Seat>) {
    forall i, j :: 0 <= i < j < |s| ==> Key(c, s[i]) <= Key(c, s[j])
  }

  /** The seats of key k, in list order. */
  function FilterKey(c: SeatComparator, s: seq<Seat>, k: int): (r: seq<Seat>)
    ensures |r| <= |s|
  {
    if s == [] then []
    else (if Key(c, s[0]) == k then [s[0]] else []) + FilterKey(c, s[1..], k)
  }

  lemma {:induction false} FilterKeyAppend(c: SeatComparator, s: seq<Seat>, x: Seat, k: int)
    ensures FilterKey(c, s + [x], k) == FilterKey(c, s, k) + (if Key(c, x) == k then [x] else [])
  {
    if s != [] {
      assert (s + [x])[1..] == s[1..] + [x];
      FilterKeyAppend(c, s[1..], x, k);
    }
  }

  lemma {:induction false} FilterKeyNone(c: SeatComparator, s: seq<Seat>, k: int)
    requires forall i :: 0 <= i < |s| ==> Key(c, s[i]) != k
    ensures FilterKey(c, s, k) == []
  {
    if s != [] {
      FilterKeyNone(c, s[1..], k);
    }
  }

  lemma SafeFromMultiset(s: seq<Seat>, t: seq<Seat>)
    requires AllSafe(s) && multiset(t) <= multiset(s)
    ensures AllSafe(t)
  {
    forall i | 0 <= i < |t|
      ensures SafeRow(t[i].rowNumber)
    {
      assert t[i] in multiset(t);
    }
  }

  /** A seat ranked no later than every seat of a sorted list, put in front
      of it, leaves it sorted. */
  lemma ConsSorted(c: SeatComparator, y: Seat, t: seq<Seat>)
    requires SortedBy(c, t) && forall j :: 0 <= j < |t| ==> Key(c, y) <= Key(c, t[j])
    ensures SortedBy(c, [y] + t)
  {
    forall i, j | 0 <= i < j < |[y] + t|
      ensures Key(c, ([y] + t)[i]) <= Key(c, ([y] + t)[j])
    {
      if i > 0 {
        assert ([y] + t)[i] == t[i - 1];
      }
      assert ([y] + t)[j] == t[j - 1];
    }
  }

  /** When x is inserted past the head of a sorted list, the head ranks no
      later than any seat of the new tail. */
  lemma HeadBeforeInserted(c: SeatComparator, x: Seat, s: seq<Seat>)
    requires s != [] && AllSafe(s) && SafeRow(x.rowNumber) && SortedBy(c, s) && CompareSeats(c, x, s[0]) >= 0
    ensures forall j :: 0 <= j < |Insert(c, x, s[1..])| ==> Key(c, s[0]) <= Key(c, Insert(c, x, s[1..])[j])
  {
    CompareIsKeyDifference(c, x, s[0]);
    var tail := Insert(c, x, s[1..]);
    forall j | 0 <= j < |tail|
      ensures Key(c, s[0]) <= Key(c, tail[j])
    {
      assert tail[j] in multiset(s[1..]) + multiset{x};
      if tail[j] in multiset(s[1..]) {
        var m :| 0 <= m < |s[1..]| && s[1..][m] == tail[j];
        assert s[1 + m] == tail[j];
      }
    }
  }

  /** Inserting into a sorted list keeps it sorted. */
  lemma {:induction false} InsertSorted(c: SeatComparator, x: Seat, s: seq<Seat>)
    requires AllSafe(s) && SafeRow(x.rowNumber) && SortedBy(c, s)
    ensures SortedBy(c, Insert(c, x, s))
  {
    if s == [] {
      assert Insert(c, x, s) == [x];
    } else if CompareSeats(c, x, s[0]) < 0 {
      CompareIsKeyDifference(c, x, s[0]);
      assert Insert(c, x, s) == [x] + s;
      ConsSorted(c, x, s);
    } else {
      SortedTail(c, s);
      InsertSorted(c, x, s[1..]);
      InsertPastHead(c, x, s);
      HeadBeforeInserted(c, x, s);
      ConsSorted(c, s[0], Insert(c, x, s[1..]));
    }
  }

  /** A seat the comparator puts strictly before the head of a sorted list
      is inserted in front, after the list's seats of its own key (there are
      none). */
  lemma InsertFront(c: SeatComparator, x: Seat, s: seq<Seat>, k: int)
    requires s != [] && AllSafe(s) && SafeRow(x.rowNumber) && SortedBy(c, s) && CompareSeats(c, x, s[0]) < 0
    ensures FilterKey(c, Insert(c, x, s), k) == FilterKey(c, s, k) + (if Key(c, x) == k then [x] else [])
  {
    CompareIsKeyDifference(c, x, s[0]);
    assert Insert(c, x, s) == [x] + s;
    assert ([x] + s)[1..] == s;
    if Key(c, x) == k {
      FilterKeyNone(c, s, k);
    }
  }

  /** A seat the comparator does not put before the head of a list is
      inserted into its tail. */
  lemma InsertPastHead(c: SeatComparator, x: Seat, s: seq<Seat>)
    requires s != [] && CompareSeats(c, x, s[0]) >= 0
    ensures Insert(c, x, s) == [s[0]] + Insert(c, x, s[1..])
  {
  }

  lemma SortedTail(c: SeatComparator, s: seq<Seat>)
    requires s != [] && AllSafe(s) && SortedBy(c, s)
    ensures AllSafe(s[1..]) && SortedBy(c, s[1..])
  {
  }

  lemma FilterKeyCons(c: SeatComparator, y: Seat, t: seq<Seat>, k: int)
    ensures FilterKey(c, [y] + t, k) == (if Key(c, y) == k then [y] else []) + FilterKey(c, t, k)
  {
    assert ([y] + t)[1..] == t;
  }

  /** Putting the same seat in front of two lists keeps their key-k seats
      related as before. */
  lemma FilterKeyPrepend(c: SeatComparator, y: Seat, tail: seq<Seat>, rest: seq<Seat>, added: seq<Seat>, k: int)
    requires FilterKey(c, tail, k) == FilterKey(c, rest, k) + added
    ensures FilterKey(c, [y] + tail, k) == FilterKey(c, [y] + rest, k) + added
  {
    FilterKeyCons(c, y, tail, k);
    FilterKeyCons(c, y, rest, k);
  }

  /** Insertion puts x after the seats of its own key already in the list. */
  lemma {:induction false} InsertFilterKey(c: SeatComparator, x: Seat, s: seq<Seat>, k: int)
    requires AllSafe(s) && SafeRow(x.rowNumber) && SortedBy(c, s)
    ensures FilterKey(c, Insert(c, x, s), k) == FilterKey(c, s, k) + (if Key(c, x) == k then [x] else [])
  {
    if s == [] {
      FilterKeyCons(c, x, [], k);
    } else if CompareSeats(c, x, s[0]) < 0 {
      InsertFront(c, x, s, k);
    } else {
      SortedTail(c, s);
      InsertFilterKey(c, x, s[1..], k);
      InsertPastHead(c, x, s);
      assert s == [s[0]] + s[1..];
      FilterKeyPrepend(c, s[0], Insert(c, x, s[1..]), s[1..], if Key(c, x) == k then [x] else [], k);
    }
  }

  /** StableSort orders the seats by key and keeps, for every key, the seats
      of that key in their original order: it is a stable sort. */
  lemma {:induction false} StableSortCorrect(c: SeatComparator, s: seq<Seat>)
    requires AllSafe(s)
    ensures SortedBy(c, StableSort(c, s))
    ensures forall k :: FilterKey(c, StableSort(c, s), k) == FilterKey(c, s, k)
  {
    if s != [] {
      var prefix := s[..|s| - 1];
      var x := s[|s| - 1];
      assert s == prefix + [x];
      StableSortCorrect(c, prefix);
      SafeFromMultiset(prefix, StableSort(c, prefix));
      InsertSorted(c, x, StableSort(c, prefix));
      forall k
        ensures FilterKey(c, StableSort(c, s), k) == FilterKey(c, s, k)
      {
        InsertFilterKey(c, x, StableSort(c, prefix), k);
        FilterKeyAppend(c, prefix, x, k);
      }
    }
  }

  /** The stable sort of seats in safe rows is sorted. */
  lemma StableSortSorted(c: SeatComparator, s: seq<Seat>)
    requires AllSafe(s)
    ensures SortedBy(c, StableSort(c, s))
  {
    StableSortCorrect(c, s);
  }

  /** A prefix of a sorted list is sorted, and ranks no later than any seat
      of the list outside it. */
  lemma SortedPrefixBest(c: SeatComparator, sorted: seq<Seat>, n: int)
    requires SortedBy(c, sorted) && 0 <= n <= |sorted|
    ensures SortedBy(c, sorted[..n])
    ensures forall x, k :: x in sorted && x !in multiset(sorted[..n]) && 0 <= k < n ==> Key(c, sorted[k]) <= Key(c, x)
  {
    forall x, k | x in sorted && x !in multiset(sorted[..n]) && 0 <= k < n
      ensures Key(c, sorted[k]) <= Key(c, x)
    {
      var j :| 0 <= j < |sorted| && sorted[j] == x;
    }
  }

  /** The first n seats of the sorted list are n of the seats; on safe rows
      they are in order and no seat left out ranks before a seat taken. */
  lemma LocatedAreBest(c: SeatComparator, s: seq<Seat>, n: int)
    requires 0 <= n <= |s|
    ensures multiset(StableSort(c, s)[..n]) <= multiset(s)
    ensures AllSafe(s) ==>
              var t := StableSort(c, s)[..n];
              SortedBy(c, t)
              && forall x, k :: x in s && x !in multiset(t) && 0 <= k < n ==> Key(c, t[k]) <= Key(c, x)
  {
    var sorted := StableSort(c, s);
    var t := sorted[..n];
    assert sorted == t + sorted[n..];
    assert multiset(sorted) == multiset(t) + multiset(sorted[n..]);
    if AllSafe(s) {
      StableSortSorted(c, s);
      SortedPrefixBest(c, sorted, n);
      forall x, k | x in s && x !in multiset(t) && 0 <= k < n
        ensures Key(c, t[k]) <= Key(c, x)
      {
        assert x in multiset(sorted);
        assert t[k] == sorted[k];
      }
    }
  }

  /** Inserting a seat whose coordinates are new keeps the coordinates distinct. */
  lemma {:induction false} InsertDistinct(c: SeatComparator, x: Seat, s: seq<Seat>)
    requires DistinctPositions(s) && forall i :: 0 <= i < |s| ==> PosOf(s[i]) != PosOf(x)
    ensures DistinctPositions(Insert(c, x, s))
  {
    if s != [] && CompareSeats(c, x, s[0]) >= 0 {
      var tail := Insert(c, x, s[1..]);
      InsertDistinct(c, x, s[1..]);
      forall j | 0 <= j < |tail|
        ensures PosOf(s[0]) != PosOf(tail[j])
      {
        assert tail[j] in multiset(s[1..]) + multiset{x};
        if tail[j] in multiset(s[1..]) {
          var m :| 0 <= m < |s[1..]| && s[1..][m] == tail[j];
          assert s[1 + m] == tail[j];
        }
      }
      assert Insert(c, x, s) == [s[0]] + tail;
    }
  }

  /** Sorting keeps the coordinates of a list distinct. */
  lemma {:induction false} StableSortDistinct(c: SeatComparator, s: seq<Seat>)
    requires DistinctPositions(s)
    ensures DistinctPositions(StableSort(c, s))
  {
    if s != [] {
      var prefix := s[..|s| - 1];
      var x := s[|s| - 1];
      var sorted := StableSort(c, prefix);
      StableSortDistinct(c, prefix);
      forall i | 0 <= i < |sorted|
        ensures PosOf(sorted[i]) != PosOf(x)
      {
        assert sorted[i] in multiset(prefix);
        var m :| 0 <= m < |prefix| && prefix[m] == sorted[i];
        assert s[m] == sorted[i];
      }
      InsertDistinct(c, x, sorted);
    }
  }

  /** The first n seats of the sorted list are seats of the list, and their
      coordinates are distinct when the list's are. */
  lemma LocatedFromList(c: SeatComparator, s: seq<Seat>, n: int)
    requires 0 <= n <= |s|
    ensures forall k :: 0 <= k < n ==> StableSort(c, s)[k] in s
    ensures DistinctPositions(s) ==> DistinctPositions(StableSort(c, s)[..n])
  {
    var t := StableSort(c, s)[..n];
    LocatedAreBest(c, s, n);
    forall k | 0 <= k < n
      ensures StableSort(c, s)[k] in s
    {
      assert t[k] in multiset(s);
    }
    if DistinctPositions(s) {
      StableSortDistinct(c, s);
    }
  }

  class ComparatorBasedSeatLocatorService {
    var venue: Venue?
    var comparator: SeatComparator

    /** The Java class has only its implicit no-argument constructor; this one
        stands for `new` followed by setVenue and setComparator. A null
        comparator is not modelled (see README, Left out). */
    constructor(venue: Venue?, comparator: SeatComparator)
      ensures this.venue == venue && this.comparator == comparator
    {
      this.venue := venue;
      this.comparator := comparator;
    }

    /** The venue, as a set for frames. */
    function VenueObjs(): set<Venue>
      reads this
    {
      if venue == null then {} else {venue}
    }

    /** What locateSeats(numSeats) answers in the current state. */
    function Located(numSeats: int): (r: Result<seq<Seat>>)
      reads this, VenueObjs()
      ensures r.Ok? ==> |r.value| == numSeats
    {
      if numSeats <= 0 then Err(IllegalArgument(UNABLE_TO_LOCATE_ZERO_OR_NEGATIVE_SEATS))
      else if venue == null then Err(NullPointer)
      else if numSeats > |venue.GetOpenSeats()| then Err(InsufficientAvailableSeats(INSUFFICIENT_OPEN_SEATS))
      else Ok(StableSort(comparator, venue.GetOpenSeats())[..numSeats])
    }

    method SetVenue(venue: Venue?)
      modifies this
      ensures this.venue == venue && comparator == old(comparator)
    {
      this.venue := venue;
    }

    method SetComparator(comparator: SeatComparator)
      modifies this
      ensures this.comparator == comparator && venue == old(venue)
    {
      this.comparator := comparator;
    }

    /** The seats Located answers are open seats of the venue; on safe rows
        they are in comparator order and no open seat left out ranks before
        a seat taken. */
    lemma LocatedAreBestOpenSeats(numSeats: int)
      requires Located(numSeats).Ok?
      ensures var t := Located(numSeats).value;
              var open := venue.GetOpenSeats();
              |t| == numSeats && multiset(t) <= multiset(open)
              && (forall k :: 0 <= k < |t| ==> t[k].status.Open?)
              && (AllSafe(open) ==>
                    SortedBy(comparator, t)
                    && forall x, k :: x in open && x !in multiset(t) && 0 <= k < |t| ==> Key(comparator, t[k]) <= Key(comparator, x))
    {
      var open := venue.GetOpenSeats();
      var t := Located(numSeats).value;
      LocatedAreBest(comparator, open, numSeats);
      forall k | 0 <= k < |t|
        ensures t[k].status.Open?
      {
        assert t[k] in multiset(open);
      }
    }

    /** In a well-formed venue the located seats are the venue's own open
        seats, each stored at its coordinates, no two at the same coordinates. */
    lemma LocatedAreVenueSeats(numSeats: int)
      requires Located(numSeats).Ok? && venue.WellFormed()
      ensures var t := Located(numSeats).value;
              DistinctPositions(t)
              && forall k :: 0 <= k < |t| ==>
                   venue.HasSeat(PosOf(t[k])) && venue.SeatAt(PosOf(t[k])) == t[k] && t[k].status.Open?
    {
      var open := venue.GetOpenSeats();
      var t := Located(numSeats).value;
      OpenSeatsDistinct(venue.seatsByRow, venue.rowCount, venue.rowSeatCount);
      venue.OpenSeatsAreVenueSeats();
      assert DistinctPositions(open);
      LocatedFromList(comparator, open, numSeats);
      forall k | 0 <= k < |t|
        ensures venue.HasSeat(PosOf(t[k])) && venue.SeatAt(PosOf(t[k])) == t[k] && t[k].status.Open?
      {
        var j :| 0 <= j < |open| && open[j] == t[k];
      }
    }

    /** locateSeats(numSeats): rejects a count below 1 before looking at the
        venue, fails on a missing venue and when fewer seats are open than
        asked for; otherwise the first numSeats open seats in comparator order. */
    method LocateSeats(numSeats: int) returns (r: Result<seq<Seat>>)
      ensures r == Located(numSeats)
      ensures numSeats <= 0 ==> r == Err(IllegalArgument(UNABLE_TO_LOCATE_ZERO_OR_NEGATIVE_SEATS))
      ensures numSeats > 0 && venue == null ==> r == Err(NullPointer)
      ensures numSeats > 0 && venue != null && numSeats > |venue.GetOpenSeats()| ==>
                r == Err(InsufficientAvailableSeats(INSUFFICIENT_OPEN_SEATS))
      ensures r.Ok? <==> 0 < numSeats && venue != null && numSeats <= |venue.GetOpenSeats()|
    {
      if numSeats <= 0 {
        return Err(IllegalArgument(UNABLE_TO_LOCATE_ZERO_OR_NEGATIVE_SEATS));
      }
      if venue == null {
        return Err(NullPointer);
      }
      var openSeats := venue.GetOpenSeats();
      if numSeats > |openSeats| {
        return Err(InsufficientAvailableSeats(INSUFFICIENT_OPEN_SEATS));
      }
      var sorted := StableSort(comparator, openSeats);
      var located := TakeFirst(sorted, numSeats);
      return Ok(located);
    }
  }

  /** The copy loop of locateSeats: the first n seats of the sorted list, in
      order, in a new list. */
  method TakeFirst(sorted: seq<Seat>, n: int) returns (located: seq<Seat>)
    requires 0 <= n <= |sorted|
    ensures located == sorted[..n]
  {
    located := [];
    var i := 0;
    while i < n
      invariant 0 <= i <= n
      invariant located == sorted[..i]
    {
      assert sorted[..i + 1] == sorted[..i] + [sorted[i]];
      located := located + [sorted[i]];
      i := i + 1;
    }
  }
}
