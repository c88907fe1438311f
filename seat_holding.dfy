/** ExpiringTransientSeatHoldingService (seats.services): the in-memory index
    of seat holds by id, the id counter, and the sweep that lets lapsed holds
    go and opens their seats again. The scheduler that runs the sweep and the
    clock it reads are not modelled; the sweep takes the time as a parameter. */
module SeatHolding {
  import opened Common
  import opened Seats
  import opened SeatHolds
  import opened Venues

  /** The ids of the holds created before the cutoff. */
  function ExpiredIds(index: map<int, SeatHold>, cutoff: int): (ids: set<int>)
    ensures forall id :: id in ids <==> id in index && IsExpired(index[id], cutoff)
  {
    set id | id in index && IsExpired(index[id], cutoff)
  }

  /** The entries a sweep keeps: those not created before the cutoff. */
  function Surviving(index: map<int, SeatHold>, cutoff: int): (m: map<int, SeatHold>)
    ensures forall id :: id in m <==> id in index && !IsExpired(index[id], cutoff)
    ensures forall id :: id in m ==> m[id] == index[id]
  {
    map id | id in index && !IsExpired(index[id], cutoff) :: index[id]
  }

  /** The positions of the seats of the holds with the given ids. */
  function HeldPositions(index: map<int, SeatHold>, ids: set<int>): (K: set<Pos>)
    ensures forall id, i :: id in ids && id in index && 0 <= i < |index[id].seatsHeld| ==>
              PosOf(index[id].seatsHeld[i]) in K
    ensures forall p :: p in K ==>
              exists id, i :: id in ids && id in index && 0 <= i < |index[id].seatsHeld| && PosOf(index[id].seatsHeld[i]) == p
  {
    set id, i | id in ids && id in index && 0 <= i < |index[id].seatsHeld| :: PosOf(index[id].seatsHeld[i])
  }

  lemma HeldPositionsAdd(index: map<int, SeatHold>, ids: set<int>, id: int)
    requires id in index
    ensures HeldPositions(index, ids + {id}) == HeldPositions(index, ids) + Positions(index[id].seatsHeld)
  {
  }

  lemma HeldPositionsMono(index: map<int, SeatHold>, ids: set<int>, ids': set<int>)
    requires ids <= ids'
    ensures HeldPositions(index, ids) <= HeldPositions(index, ids')
  {
  }

  /** An index that keeps exactly the entries of index0 not created before
      the cutoff, unchanged, is the surviving part of index0. */
  lemma SweptIndex(index0: map<int, SeatHold>, index: map<int, SeatHold>, cutoff: int)
    requires forall id :: id in index <==> id in index0 && !IsExpired(index0[id], cutoff)
    requires forall id :: id in index ==> index[id] == index0[id]
    ensures index == Surviving(index0, cutoff)
  {
    var m := Surviving(index0, cutoff);
    forall id
      ensures id in index.Keys <==> id in m.Keys
    {
    }
    assert index.Keys == m.Keys;
    forall id | id in index
      ensures index[id] == m[id]
    {
    }
  }

  /** Every seat of the list has coordinates within the given dimensions
      that are stored in the grid. */
  predicate StoredIn(m: Grid, rowCount: int, rowSeatCount: int, seats: seq<Seat>) {
    forall i :: 0 <= i < |seats| ==> InBounds(rowCount, rowSeatCount, PosOf(seats[i])) && InGrid(m, PosOf(seats[i]))
  }

  lemma StoredInAt(m: Grid, rowCount: int, rowSeatCount: int, seats: seq<Seat>, j: int)
    requires 0 <= j < |seats| && !(InBounds(rowCount, rowSeatCount, PosOf(seats[j])) && InGrid(m, PosOf(seats[j])))
    ensures !StoredIn(m, rowCount, rowSeatCount, seats)
  {
  }

  lemma StoredInSameShape(m0: Grid, m1: Grid, K: set<Pos>, op: SeatOp, rowCount: int, rowSeatCount: int, seats: seq<Seat>)
    requires Applied(m0, m1, K, op)
    ensures StoredIn(m0, rowCount, rowSeatCount, seats) <==> StoredIn(m1, rowCount, rowSeatCount, seats)
  {
    AppliedSameShape(m0, m1, K, op);
  }

  /** The index part way through a sweep: the pending entries and the
      surviving ones. */
  function SweepIndex(index0: map<int, SeatHold>, cutoff: int, pending: set<int>): (m: map<int, SeatHold>)
    ensures forall id :: id in m <==> id in index0 && (id in pending || !IsExpired(index0[id], cutoff))
    ensures forall id :: id in m ==> m[id] == index0[id]
  {
    map id | id in index0 && (id in pending || !IsExpired(index0[id], cutoff)) :: index0[id]
  }

  lemma SweepIndexStart(index0: map<int, SeatHold>, cutoff: int)
    ensures SweepIndex(index0, cutoff, index0.Keys) == index0
  {
    var m := SweepIndex(index0, cutoff, index0.Keys);
    forall id
      ensures id in m.Keys <==> id in index0.Keys
    {
    }
    assert m.Keys == index0.Keys;
  }

  lemma SweepIndexStep(index0: map<int, SeatHold>, cutoff: int, pending: set<int>, id: int)
    requires id in pending && pending <= index0.Keys
    ensures SweepIndex(index0, cutoff, pending - {id})
            == if IsExpired(index0[id], cutoff) then SweepIndex(index0, cutoff, pending) - {id}
               else SweepIndex(index0, cutoff, pending)
  {
    var a := SweepIndex(index0, cutoff, pending - {id});
    var b := if IsExpired(index0[id], cutoff) then SweepIndex(index0, cutoff, pending) - {id}
             else SweepIndex(index0, cutoff, pending);
    forall k
      ensures k in a.Keys <==> k in b.Keys
    {
    }
    assert a.Keys == b.Keys;
  }

  lemma SweepIndexEnd(index0: map<int, SeatHold>, cutoff: int)
    ensures SweepIndex(index0, cutoff, {}) == Surviving(index0, cutoff)
  {
    var a := SweepIndex(index0, cutoff, {});
    var b := Surviving(index0, cutoff);
    forall k
      ensures k in a.Keys <==> k in b.Keys
    {
    }
    assert a.Keys == b.Keys;
  }

  /** Taking `id` off the pending set adds it to the ids already swept when
      it lapsed. */
  lemma DoneStep(index0: map<int, SeatHold>, cutoff: int, pending: set<int>, done: set<int>, id: int)
    requires id in pending && id in index0 && done == ExpiredIds(index0, cutoff) - pending
    ensures IsExpired(index0[id], cutoff) ==> done + {id} == ExpiredIds(index0, cutoff) - (pending - {id})
    ensures !IsExpired(index0[id], cutoff) ==> done == ExpiredIds(index0, cutoff) - (pending - {id})
  {
  }

  /** One more lapsed hold released in full. */
  lemma SweepPassStep(m0: Grid, m1: Grid, m2: Grid, index0: map<int, SeatHold>, done: set<int>, id: int)
    requires id in index0
    requires Applied(m0, m1, HeldPositions(index0, done), ReleaseOp)
    requires Applied(m1, m2, Positions(index0[id].seatsHeld), ReleaseOp)
    ensures Applied(m0, m2, HeldPositions(index0, done + {id}), ReleaseOp)
  {
    AppliedCompose(m0, m1, m2, HeldPositions(index0, done), Positions(index0[id].seatsHeld), ReleaseOp);
    HeldPositionsAdd(index0, done, id);
  }

  /** A sweep stopped inside a lapsed hold changed only seats of lapsed holds. */
  lemma SweepFailState(m0: Grid, m1: Grid, m2: Grid, index0: map<int, SeatHold>, done: set<int>, id: int, cutoff: int)
    requires id in index0 && IsExpired(index0[id], cutoff) && done <= ExpiredIds(index0, cutoff)
    requires Applied(m0, m1, HeldPositions(index0, done), ReleaseOp)
    requires ChangedWithin(m1, m2, Positions(index0[id].seatsHeld), ReleaseOp)
    ensures ChangedWithin(m0, m2, HeldPositions(index0, ExpiredIds(index0, cutoff)), ReleaseOp)
  {
    ChangedWithinCompose(m0, m1, m2, HeldPositions(index0, done), Positions(index0[id].seatsHeld), ReleaseOp);
    HeldPositionsAdd(index0, done, id);
    HeldPositionsMono(index0, done + {id}, ExpiredIds(index0, cutoff));
  }

  /** The as-written cutoff of expireSeatHoldings: DateTime.minus returns a
      new value that is dropped, so the cutoff is the current time itself. */
  function AsWrittenCutoff(now: int, expirationTime: int): int {
    now
  }

  /** The cutoff the comment above the call describes: the current time less
      the expiration time. */
  function CorrectedCutoff(now: int, expirationTime: int): int {
    now - expirationTime
  }

  /** As written, every hold created before now lapses, whatever the
      expiration time is set to. */
  lemma AsWrittenIgnoresExpirationTime(h: SeatHold, now: int, expirationTime: int)
    ensures IsExpired(h, AsWrittenCutoff(now, expirationTime)) <==> h.creationTime < now
  {
  }

  /** A hold created one millisecond ago with a one-minute expiration time
      lapses in the as-written sweep and survives the corrected one. */
  lemma AsWrittenExpiresFreshHold(h: SeatHold, now: int)
    requires h.creationTime == now - 1
    ensures IsExpired(h, AsWrittenCutoff(now, 60000))
    ensures !IsExpired(h, CorrectedCutoff(now, 60000))
  {
  }

  /** Corrected: a hold lapses exactly when it is older than the expiration time. */
  lemma CorrectedExpiresOnlyOldHolds(h: SeatHold, now: int, expirationTime: int)
    ensures IsExpired(h, CorrectedCutoff(now, expirationTime)) <==> now - h.creationTime > expirationTime
  {
  }

  /** isBefore is strict and monotone in the cutoff: a hold is live at its
      own creation time, one lapsed at a cutoff lapses at every later cutoff,
      so a later sweep keeps no hold an earlier one would have dropped. */
  lemma ExpiryMonotone(index: map<int, SeatHold>, h: SeatHold, cutoff: int, later: int)
    requires cutoff <= later
    ensures !IsExpired(h, h.creationTime)
    ensures IsExpired(h, cutoff) ==> IsExpired(h, later)
    ensures forall id :: id in Surviving(index, later) ==> id in Surviving(index, cutoff)
  {
  }

  class ExpiringTransientSeatHoldingService {
    var venue: Venue?
    var index: map<int, SeatHold>
    var idGenerator: int
    var expirationTimeInMilliSeconds: int
    var expirationCheckCycleTimeInMilliSeconds: int
    /** The number of holds added so far; while it fits in an int the counter
        equals it and every stored id was drawn from the counter. */
    ghost var issued: nat

    /** `new ExpiringTransientSeatHoldingService()`: an empty index, the id
        counter at 0, no venue. */
    constructor ()
      ensures venue == null && index == map[] && idGenerator == 0
      ensures expirationTimeInMilliSeconds == 0 && expirationCheckCycleTimeInMilliSeconds == 0
      ensures Valid()
    {
      venue := null;
      index := map[];
      idGenerator := 0;
      issued := 0;
      expirationTimeInMilliSeconds := 0;
      expirationCheckCycleTimeInMilliSeconds := 0;
    }

    /** The id counter is a Java int and every hold is stored under its own
        id; until the counter has wrapped, it counts the holds added and every
        stored id is one it handed out, from 1 to its current value. */
    ghost predicate Valid()
      reads this
    {
      && IsInt(idGenerator)
      && (forall id :: id in index ==> index[id].id == id)
      && (issued <= INT_MAX ==> idGenerator == issued && forall id :: id in index ==> 1 <= id <= idGenerator)
    }

    /** The venue, as a set for frames. */
    function VenueObjs(): set<Venue>
      reads this
    {
      if venue == null then {} else {venue}
    }

    method SetVenue(v: Venue?)
      modifies this`venue
      ensures venue == v
    {
      venue := v;
    }

    method SetExpirationTimeInMilliSeconds(t: int)
      modifies this`expirationTimeInMilliSeconds
      ensures expirationTimeInMilliSeconds == t
    {
      expirationTimeInMilliSeconds := t;
    }

    method SetExpirationCheckCycleTimeInMilliSeconds(t: int)
      modifies this`expirationCheckCycleTimeInMilliSeconds
      ensures expirationCheckCycleTimeInMilliSeconds == t
    {
      expirationCheckCycleTimeInMilliSeconds := t;
    }

    /** getSeatHoldCount: the number of stored holds, as a Java int (the map's
        size saturates at Integer.MAX_VALUE). */
    function GetSeatHoldCount(): (n: int)
      reads this
      ensures 0 <= n <= INT_MAX
      ensures |index| <= INT_MAX ==> n == |index|
    {
      if |index| > INT_MAX then INT_MAX else |index|
    }

    /** getSeatHoldingCount has the same body as getSeatHoldCount. */
    function GetSeatHoldingCount(): (n: int)
      reads this
      ensures n == GetSeatHoldCount()
    {
      if |index| > INT_MAX then INT_MAX else |index|
    }

    /** addSeatHold(holding): takes the next id from the counter (wrapping
        past Integer.MAX_VALUE, as AtomicInteger.incrementAndGet does), stores
        the hold under it, replacing any hold with that id, and returns it.
        Until the counter wraps, the new id is larger than every earlier one
        and not yet in use, so the number of holds grows by one. */
    method AddSeatHold(holding: SeatHold) returns (stored: SeatHold)
      requires Valid()
      modifies this`index, this`idGenerator, this`issued
      ensures Valid()
      ensures idGenerator == Wrap(old(idGenerator) + 1)
      ensures stored == holding.(id := idGenerator)
      ensures index == old(index)[idGenerator := stored]
      ensures issued == old(issued) + 1
      ensures old(issued) < INT_MAX ==>
                old(idGenerator) < idGenerator && idGenerator !in old(index) && |index| == |old(index)| + 1
    {
      issued := issued + 1;
      idGenerator := Wrap(idGenerator + 1);
      stored := holding.(id := idGenerator);
      index := index[idGenerator := stored];
    }

    /** removeSeatHoldById(id): an unknown id is a NoSuchSeatHoldException;
        otherwise the hold is dropped from the index. */
    method RemoveSeatHoldById(seatHoldId: int) returns (o: Outcome)
      modifies this`index
      ensures o.Fail? <==> seatHoldId !in old(index)
      ensures o.Fail? ==> o == Fail(NoSuchSeatHold(SEAT_HOLD_ID_UNKNOWN)) && index == old(index)
      ensures o.Pass? ==> index == old(index) - {seatHoldId}
      ensures old(Valid()) ==> Valid()
    {
      if seatHoldId !in index {
        return Fail(NoSuchSeatHold(SEAT_HOLD_ID_UNKNOWN));
      }
      index := index - {seatHoldId};
      return Pass;
    }

    /** getSeatHoldById(id): the stored hold, which carries that id, or a
        NoSuchSeatHoldException for an unknown id. */
    function GetSeatHoldById(seatHoldId: int): (r: Result<SeatHold>)
      reads this
      ensures r.Ok? <==> seatHoldId in index
      ensures r.Ok? ==> r.value == index[seatHoldId]
      ensures r.Err? ==> r.error == NoSuchSeatHold(SEAT_HOLD_ID_UNKNOWN)
      ensures Valid() && r.Ok? ==> r.value.id == seatHoldId
    {
      if seatHoldId !in index then Err(NoSuchSeatHold(SEAT_HOLD_ID_UNKNOWN)) else Ok(index[seatHoldId])
    }

    /** The sweep can open every seat of the list: there is none, or the
        venue is set and has a seat at each seat's coordinates. */
    predicate Releasable(seats: seq<Seat>)
      reads this, VenueObjs()
    {
      seats == [] || (venue != null && StoredIn(venue.seatsByRow, venue.rowCount, venue.rowSeatCount, seats))
    }

    /** The inner loop of expireSeatHoldings: unholdSeat on every seat of one
        hold. A seat that is no longer held (SeatNotHeldException) is skipped;
        a missing venue (NullPointerException) or coordinates that name no seat
        (IllegalArgumentException) end the sweep. */
    method UnholdSeats(seats: seq<Seat>) returns (o: Outcome)
      modifies VenueObjs()`seatsByRow
      ensures o.Pass? <==> old(Releasable(seats))
      ensures o.Fail? ==> o.error == NullPointer || o.error.IllegalArgument?
      ensures venue != null && o.Pass? ==>
                Applied(old(venue.seatsByRow), venue.seatsByRow, Positions(seats), ReleaseOp)
      ensures venue != null && o.Fail? ==>
                ChangedWithin(old(venue.seatsByRow), venue.seatsByRow, Positions(seats), ReleaseOp)
    {
      if seats == [] {
        return Pass;
      }
      if venue == null {
        return Fail(NullPointer);
      }
      AppliedNothing(venue.seatsByRow, ReleaseOp);
      var j := 0;
      while j < |seats|
        invariant 0 <= j <= |seats|
        invariant Applied(old(venue.seatsByRow), venue.seatsByRow, Positions(seats[..j]), ReleaseOp)
        invariant StoredIn(old(venue.seatsByRow), venue.rowCount, venue.rowSeatCount, seats[..j])
      {
        var p := PosOf(seats[j]);
        AppliedSameShape(old(venue.seatsByRow), venue.seatsByRow, Positions(seats[..j]), ReleaseOp);
        ghost var before := venue.seatsByRow;
        o := venue.UnholdSeat(p.row, p.seat);
        if o.Fail? && o.error.IllegalArgument? {
          AppliedChangedWithin(old(venue.seatsByRow), venue.seatsByRow, Positions(seats[..j]), Positions(seats), ReleaseOp);
          StoredInAt(old(venue.seatsByRow), venue.rowCount, venue.rowSeatCount, seats, j);
          return;
        }
        AppliedStep(old(venue.seatsByRow), before, Positions(seats[..j]), ReleaseOp, p);
        assert seats[..j + 1] == seats[..j] + [seats[j]];
        assert Positions(seats[..j + 1]) == Positions(seats[..j]) + {p};
        j := j + 1;
      }
      assert seats[..j] == seats;
      return Pass;
    }

    /** One pass of the loop of expireSeatHoldings, for the hold stored under
        `id`: a hold created before the cutoff has its seats released and is
        dropped from the index; any other hold is left alone. */
    method ExpireOne(id: int, cutoff: int) returns (o: Outcome)
      requires Valid() && id in index
      modifies this`index, VenueObjs()`seatsByRow
      ensures Valid()
      ensures !IsExpired(old(index[id]), cutoff) ==> o.Pass? && index == old(index)
      ensures !IsExpired(old(index[id]), cutoff) && venue != null ==> venue.seatsByRow == old(venue.seatsByRow)
      ensures IsExpired(old(index[id]), cutoff) ==> (o.Pass? <==> old(Releasable(index[id].seatsHeld)))
      ensures o.Fail? ==> (o.error == NullPointer || o.error.IllegalArgument?) && index == old(index)
      ensures IsExpired(old(index[id]), cutoff) && o.Pass? ==> index == old(index) - {id}
      ensures IsExpired(old(index[id]), cutoff) && o.Pass? && venue != null ==>
                Applied(old(venue.seatsByRow), venue.seatsByRow, Positions(old(index[id]).seatsHeld), ReleaseOp)
      ensures o.Fail? && venue != null ==>
                ChangedWithin(old(venue.seatsByRow), venue.seatsByRow, Positions(old(index[id]).seatsHeld), ReleaseOp)
    {
      var h := index[id];
      if IsExpired(h, cutoff) {
        o := UnholdSeats(h.seatsHeld);
        if o.Fail? {
          return;
        }
        index := index - {h.id};
      } else {
        o := Pass;
      }
    }

    /** All holds created before the cutoff can be released. */
    predicate SweepSucceeds(cutoff: int)
      reads this, VenueObjs()
    {
      forall id :: id in index && IsExpired(index[id], cutoff) ==> Releasable(index[id].seatsHeld)
    }

    /** The sweep of expireSeatHoldings for a given cutoff: each hold created
        before the cutoff has its seats opened again and is dropped from the
        index. Its order over the index is unspecified (a ConcurrentHashMap);
        a failure stops it part way, after which only some lapsed holds are
        gone and only some of their seats are open. */
    method ExpireSeatHoldingsBefore(cutoff: int) returns (o: Outcome)
      requires Valid()
      modifies this`index, VenueObjs()`seatsByRow
      ensures Valid()
      ensures o.Pass? <==> old(SweepSucceeds(cutoff))
      ensures o.Fail? ==> o.error == NullPointer || o.error.IllegalArgument?
      ensures o.Pass? ==> index == Surviving(old(index), cutoff)
      ensures o.Pass? && venue != null ==>
                Applied(old(venue.seatsByRow), venue.seatsByRow,
                        HeldPositions(old(index), ExpiredIds(old(index), cutoff)), ReleaseOp)
      ensures forall id :: id in index ==> id in old(index) && index[id] == old(index)[id]
      ensures forall id :: id in Surviving(old(index), cutoff) ==> id in index
      ensures venue != null ==>
                ChangedWithin(old(venue.seatsByRow), venue.seatsByRow,
                              HeldPositions(old(index), ExpiredIds(old(index), cutoff)), ReleaseOp)
    {
      ghost var index0 := index;
      ghost var m0: Grid := if venue == null then map[] else venue.seatsByRow;
      var pending := index.Keys;
      ghost var done: set<int> := {};
      SweepIndexStart(index0, cutoff);
      AppliedNothing(m0, ReleaseOp);
      while pending != {}
        invariant pending <= index0.Keys
        invariant Valid()
        invariant index == SweepIndex(index0, cutoff, pending)
        invariant done == ExpiredIds(index0, cutoff) - pending
        invariant forall id :: id in done ==>
                    index0[id].seatsHeld == []
                    || (venue != null && StoredIn(m0, venue.rowCount, venue.rowSeatCount, index0[id].seatsHeld))
        invariant venue != null ==> Applied(m0, venue.seatsByRow, HeldPositions(index0, done), ReleaseOp)
        decreases |pending|
      {
        assert exists x :: x in pending by {
          if forall x :: x !in pending {
            assert false;
          }
        }
        var id :| id in pending;
        o := SweepOne(id, cutoff, index0, m0, pending, done);
        if o.Fail? {
          return;
        }
        if IsExpired(index0[id], cutoff) {
          done := done + {id};
        }
        pending := pending - {id};
      }
      if venue != null {
        AppliedChangedWithin(m0, venue.seatsByRow, HeldPositions(index0, done), HeldPositions(index0, done), ReleaseOp);
      }
      SweepIndexEnd(index0, cutoff);
      return Pass;
    }

    /** One pass of the sweep loop, for the pending id `id`, with what the
        loop keeps about the ids swept so far (`done`) and the grid before
        the sweep (`m0`). A failure leaves the index alone and shows that the
        hold under `id` lapsed and could not be released in `m0`. */
    method SweepOne(id: int, cutoff: int, ghost index0: map<int, SeatHold>, ghost m0: Grid,
                    ghost pending: set<int>, ghost done: set<int>) returns (o: Outcome)
      requires Valid() && id in pending && pending <= index0.Keys
      requires index == SweepIndex(index0, cutoff, pending)
      requires done == ExpiredIds(index0, cutoff) - pending
      requires forall d :: d in done ==>
                 index0[d].seatsHeld == []
                 || (venue != null && StoredIn(m0, venue.rowCount, venue.rowSeatCount, index0[d].seatsHeld))
      requires venue != null ==> Applied(m0, venue.seatsByRow, HeldPositions(index0, done), ReleaseOp)
      modifies this`index, VenueObjs()`seatsByRow
      ensures Valid()
      ensures o.Fail? ==>
                (o.error == NullPointer || o.error.IllegalArgument?)
                && IsExpired(index0[id], cutoff)
                && !(index0[id].seatsHeld == []
                     || (venue != null && StoredIn(m0, venue.rowCount, venue.rowSeatCount, index0[id].seatsHeld)))
                && index == old(index)
                && (venue != null ==>
                      ChangedWithin(m0, venue.seatsByRow, HeldPositions(index0, ExpiredIds(index0, cutoff)), ReleaseOp))
      ensures o.Pass? ==>
                var done' := if IsExpired(index0[id], cutoff) then done + {id} else done;
                index == SweepIndex(index0, cutoff, pending - {id})
                && done' == ExpiredIds(index0, cutoff) - (pending - {id})
                && (forall d :: d in done' ==>
                      index0[d].seatsHeld == []
                      || (venue != null && StoredIn(m0, venue.rowCount, venue.rowSeatCount, index0[d].seatsHeld)))
                && (venue != null ==> Applied(m0, venue.seatsByRow, HeldPositions(index0, done'), ReleaseOp))
    {
      SweepIndexStep(index0, cutoff, pending, id);
      ghost var before: Grid := if venue == null then map[] else venue.seatsByRow;
      ghost var seats := index[id].seatsHeld;
      if venue != null && IsExpired(index[id], cutoff) {
        StoredInSameShape(m0, before, HeldPositions(index0, done), ReleaseOp, venue.rowCount, venue.rowSeatCount, seats);
      }
      o := ExpireOne(id, cutoff);
      if o.Fail? {
        if venue != null {
          SweepFailState(m0, before, venue.seatsByRow, index0, done, id, cutoff);
        }
        return;
      }
      DoneStep(index0, cutoff, pending, done, id);
      if IsExpired(index0[id], cutoff) && venue != null {
        SweepPassStep(m0, before, venue.seatsByRow, index0, done, id);
      }
    }

    /** expireSeatHoldings as written: the cutoff is the current time. */
    method ExpireSeatHoldings(now: int) returns (o: Outcome)
      requires Valid()
      modifies this`index, VenueObjs()`seatsByRow
      ensures Valid()
      ensures o.Pass? <==> old(SweepSucceeds(AsWrittenCutoff(now, expirationTimeInMilliSeconds)))
      ensures o.Fail? ==> o.error == NullPointer || o.error.IllegalArgument?
      ensures o.Pass? ==> index == Surviving(old(index), AsWrittenCutoff(now, expirationTimeInMilliSeconds))
      ensures o.Pass? && venue != null ==>
                Applied(old(venue.seatsByRow), venue.seatsByRow,
                        HeldPositions(old(index), ExpiredIds(old(index), AsWrittenCutoff(now, expirationTimeInMilliSeconds))),
                        ReleaseOp)
      ensures forall id :: id in index ==> id in old(index) && index[id] == old(index)[id]
      ensures forall id :: id in Surviving(old(index), AsWrittenCutoff(now, expirationTimeInMilliSeconds)) ==> id in index
      ensures venue != null ==>
                ChangedWithin(old(venue.seatsByRow), venue.seatsByRow,
                              HeldPositions(old(index), ExpiredIds(old(index), AsWrittenCutoff(now, expirationTimeInMilliSeconds))),
                        ReleaseOp)
    {
      o := ExpireSeatHoldingsBefore(AsWrittenCutoff(now, expirationTimeInMilliSeconds));
    }

    /** expireSeatHoldings as intended: the cutoff is the current time less the
        expiration time, so only holds older than that lapse. */
    method ExpireSeatHoldingsCorrected(now: int) returns (o: Outcome)
      requires Valid()
      modifies this`index, VenueObjs()`seatsByRow
      ensures Valid()
      ensures o.Pass? <==> old(SweepSucceeds(CorrectedCutoff(now, expirationTimeInMilliSeconds)))
      ensures o.Fail? ==> o.error == NullPointer || o.error.IllegalArgument?
      ensures o.Pass? ==> index == Surviving(old(index), CorrectedCutoff(now, expirationTimeInMilliSeconds))
      ensures o.Pass? && venue != null ==>
                Applied(old(venue.seatsByRow), venue.seatsByRow,
                        HeldPositions(old(index), ExpiredIds(old(index), CorrectedCutoff(now, expirationTimeInMilliSeconds))),
                        ReleaseOp)
      ensures forall id :: id in index ==> id in old(index) && index[id] == old(index)[id]
      ensures forall id :: id in Surviving(old(index), CorrectedCutoff(now, expirationTimeInMilliSeconds)) ==> id in index
      ensures venue != null ==>
                ChangedWithin(old(venue.seatsByRow), venue.seatsByRow,
                              HeldPositions(old(index), ExpiredIds(old(index), CorrectedCutoff(now, expirationTimeInMilliSeconds))),
                        ReleaseOp)
      ensures forall id :: id in old(index) && now - old(index)[id].creationTime <= expirationTimeInMilliSeconds ==>
                id in index && index[id] == old(index)[id]
    {
      o := ExpireSeatHoldingsBefore(CorrectedCutoff(now, expirationTimeInMilliSeconds));
    }
  }
}
