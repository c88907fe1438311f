# Seats: a verified model of a seat-reservation engine

This project models the core of `seats`, a Java service that sells seats in a
venue laid out as numbered rows of numbered seats. A customer asks for a number
of seats. The service locates the best open seats under a seat comparator and
holds them for the customer's e-mail address. It records the hold under a
fresh id, and later reserves the held seats, or lets the hold lapse so that its
seats open again.

The model is written in Dafny and follows the source's structure:

| module | file | models |
|---|---|---|
| `Common` | common.dfy | the exceptions as error values, the message constants, Java `int` wrap-around, `StringUtils.isBlank` |
| `Seats` | seats.dfy | `Seat` and `Row` as values, the seat lifecycle OPEN → HELD → RESERVED |
| `SeatHolds` | seat_holds.dfy | `SeatHold` and its request status |
| `Venues` | venue.dfy | `Venue` as a class owning the live seats by row, and the seat-state operations its callers use |
| `SeatUtils` | seat_utils.dfy | center-seat arithmetic |
| `SeatFactory`, `RowFactory`, `VenueFactory` | seat_factory.dfy, row_factory.dfy, venue_factory.dfy | building seats, rows and venues |
| `Comparators` | comparators.dfy | the row-prioritized and comprehensive comparators, in 32-bit arithmetic |
| `SeatLocator` | seat_locator.dfy | `ComparatorBasedSeatLocatorService`, with `Collections.sort` as a stable insertion sort |
| `SeatHolding` | seat_holding.dfy | `ExpiringTransientSeatHoldingService`: the hold index, the id counter, the expiry sweep |
| `TicketService` | generic_ticket_service.dfy | `GenericTicketService`: find-and-hold, reserve, open-seat count |
| `StatefulTicketService` | stateful_ticket_service.dfy | `StatefulTransientTicketService` |

## How the model is built

**Seats are values; the venue owns them.**
- A `Seat` carries its coordinates, its layout flags (aisle, center row, center seat) and its status.
- `Venue.seatsByRow` maps a row number to that row's seats.
- A seat listed elsewhere (in a hold, or in a locator's answer) stands for the venue seat at its coordinates: index `seatNumber - 1` of row `rowNumber`.
- This is how the model captures Java's aliasing: `seat.hold(email)` on a located seat changes the venue's seat.

**Errors.**
- A Java exception is a `Result`/`Outcome` error value carrying the source's message.
- A dereference of an unset (null) service or venue is `Error.NullPointer`.

**Rounds of seat operations.** The loops that hold, reserve or release a list of seats are stated with `Venues.Applied`. It says the new grid is the old one with the operation applied once at every listed position, and every other seat unchanged.

**The clock and identifiers are parameters.**
- Creation times and the expiry sweep take the time as a parameter.
- `reserveSeats` returns a confirmation code, which the source draws from `UUID.randomUUID()`; here it is a parameter.

**Operations the code calls but that `Venue.java`, `Seat.java` and `SeatHold.java` do not define.**
- These are `Venue.getOpenSeats`, `holdSeat`, `reserveSeat`, `unholdSeat`, `getRow`, `getSeatCount`, `Seat.hold`, and the seat-status and flag accessors.
- They are modelled from their call sites, the tests and the exception types they throw.
- Their rows below cite those call sites.

**In these places the model follows the code, where the tests or comments suggest otherwise:**
- `GenericTicketService.findAndHoldSeats` registers every answer with the holding service, failed ones included (a status of FAILURE_… with no seats). Only the blank-e-mail answer is returned without registering.
- The expiry sweep uses the current time as its cutoff (see Findings).
- `StatefulTransientTicketService` has no null checks. A missing venue or locator is a NullPointerException, where the generic service answers 0 open seats for a missing venue.
- `reserveSeats` takes no confirmation code in the source; it returns a new UUID.
- The message `SEAT_HOLD_CUSTOMER_EMAIL_ADDRESS_MISMATCH` is used by `GenericTicketService` but not defined in `Messages.java`; its text here is this model's own.
- `INVALID_SEAT_HOLD_ID` has the same text as `SEAT_HOLD_ID_UNKNOWN` in `Messages.java`.

## Model

| member | source | states |
|---|---|---|
| Common.Wrap | src/main/java/seats/services/ExpiringTransientSeatHoldingService.java:191-202 | the result is a Java int, congruent to the input modulo 2^32, and equal to it when it is already an int (the AtomicInteger counter and the comparator arithmetic) |
| Common.IsBlank | src/main/java/seats/services/GenericTicketService.java:110 | StringUtils.isBlank: null, or a string of whitespace characters only (Character.isWhitespace), the empty string included; BlankIffStripsToEmpty gives the equivalent stripStart reading |
| Common.BlankIffStripsToEmpty | src/main/java/seats/services/GenericTicketService.java:110 | an e-mail is blank exactly when stripping its leading whitespace leaves the empty string |
| Common.BlankExamples | src/test/java/seats/services/GenericTicketServiceTest.java:186-197 | a check of the test's e-mail inputs, not a general property: null, "" and "  " are blank and "customer@gmail.com" is not |
| Seats.NewSeat | src/main/java/seats/model/Seat.java:47 | a new seat has row and seat number 0, no flags, and is open |
| Seats.SeatCount | src/main/java/seats/model/Row.java:47 | a row's seat count is the length of its seat list |
| Seats.IsAisleSeat | src/main/java/seats/model/Seat.java:76-78 | the first and last seat of a row are aisle seats and no seat strictly between them is; RowFactory.AisleFlagMatchesIsAisleSeat ties the flags of created rows to it |
| Seats.AisleSeatMirror | src/main/java/seats/model/Seat.java:76-78 | numbering the row from the other end keeps exactly the same aisle seats |
| Seats.CustomerEmailAddress | src/main/java/seats/services/GenericTicketService.java:227-250 | a seat has no e-mail exactly when it is open, otherwise the e-mail of its hold or reservation |
| Seats.IsCenterRow | src/main/java/seats/model/Seat.java:90-110 | rejects a center span not smaller than the row with IllegalArgumentException, and otherwise answers true |
| Seats.ApplyOp | src/main/java/seats/services/GenericTicketService.java:136-138 | an operation changes only the seat's status, and only along the lifecycle (open to held, held to reserved for the same e-mail, held back to open) |
| Seats.ApplyOpIdempotent | src/main/java/seats/services/GenericTicketService.java:178-197 | applying an operation twice is applying it once |
| Seats.ReservedIsFinal | src/main/java/seats/services/ExpiringTransientSeatHoldingService.java:102-120 | no operation moves a reserved seat |
| Seats.OpError | src/main/java/seats/services/GenericTicketService.java:178-197 | an operation reports an error exactly when it would leave the seat unchanged, with the message for the seat's state |
| SeatHolds.IsExpired | src/main/java/seats/services/ExpiringTransientSeatHoldingService.java:99 | DateTime.isBefore: a hold lapses when it was created strictly before the cutoff; SeatHolding.ExpiryMonotone states its partner properties |
| SeatHolds.NewSeatHold | src/main/java/seats/model/SeatHold.java:27-29 | a new hold has an empty seat list, no status, no e-mail, and the given creation time |
| SeatUtils.CalculateCenterSeat | src/main/java/seats/utils/SeatUtils.java:22-26 | the center seat c satisfies 2c <= n < 2c + 2: it is the floor of half the row |
| SeatUtils.CalculateMinimumCenterSeat | src/main/java/seats/utils/SeatUtils.java:36-51 | rejects a center count above the row size; otherwise the floor of half the center seat, so 4r <= n < 4r + 4 |
| SeatUtils.CalculateMaximumCenterSeat | src/main/java/seats/utils/SeatUtils.java:61-76 | rejects a center count above the row size; otherwise the ceiling of half the center seat |
| SeatUtils.CalculateMinimumCenterRowSeatNumber | src/main/java/seats/utils/SeatUtils.java:87-101 | answers exactly what calculateMinimumCenterSeat answers |
| SeatUtils.CalculateMaximumCenterRowSeatNumber | src/main/java/seats/utils/SeatUtils.java:111-125 | answers exactly what calculateMaximumCenterSeat answers |
| SeatUtils.MinimumAtMostMaximum | src/main/java/seats/utils/SeatUtils.java:36-76 | the center-row span is one or two seats: min <= max <= min + 1 |
| SeatUtils.IndependentOfCenterRowSeatCount | src/main/java/seats/utils/SeatUtils.java:36-76 | once the guard passes, the center-row count has no effect on either bound |
| SeatFactory.CreateSeat | src/main/java/seats/SeatFactory.java:55-66 | rejects a row or seat number below 1; otherwise a new open seat with those coordinates and nothing else set |
| SeatFactory.CreateSeatsForRow | src/main/java/seats/SeatFactory.java:33-46 | rejects a row number or count below 1; otherwise exactly rowSeatCount new seats of that row, seat i numbered i + 1, in increasing order |
| RowFactory.CreateRow | src/main/java/seats/model/RowFactory.java:33-90 | each of the three rejections with its message, in the source's order; otherwise a row with that number whose seats carry the aisle, center-seat and center-row flags at the positions SeatUtils computes |
| RowFactory.AisleFlagMatchesIsAisleSeat | src/main/java/seats/model/Seat.java:76-78 | a created row flags a seat as aisle exactly when Seat.isAisleSeat answers true for its number |
| RowFactory.CenterSeatCount | src/main/java/seats/model/RowFactory.java:56-74 | a created row has one center seat, or none in a row of one seat |
| RowFactory.AisleSeatCount | src/main/java/seats/model/RowFactory.java:63-69 | a created row has two aisle seats, or one in a row of one seat |
| RowFactory.CenterRowCount | src/main/java/seats/model/RowFactory.java:51-79 | the center-row seats of a created row form a block between the bounds: two seats when the half-row is odd and at least 3, otherwise one, and none in a row of one seat, whatever center count was asked for |
| VenueFactory.FreshLayoutAllOpen | src/main/java/seats/VenueFactory.java:45-48 | a freshly laid-out venue is well formed and has rowCount * rowSeatCount seats, all open |
| VenueFactory.CreateVenue | src/main/java/seats/VenueFactory.java:33-51 | rejects an empty venue; otherwise a new venue with the given dimensions, row r holding seats (r, 1..rowSeatCount), all rowCount * rowSeatCount seats open |
| Comparators.ScoreSeat | src/main/java/seats/model/ComprehensiveSeatComparator.java:24-46 | the score, in int arithmetic, is congruent to ten per row plus the flag weights, and equal to it on rows where nothing overflows |
| Comparators.ScoreSeatExact | src/main/java/seats/model/ComprehensiveSeatComparator.java:13-46 | on safe rows the score is 10·row + 1 (aisle) + 2 (center row) + 3 (center seat), between 10·row and 10·row + 6 |
| Comparators.CompareSeats | src/main/java/seats/model/ComprehensiveSeatComparator.java:52-57 | both comparators' compare (RowPrioritizedSeatComparator.java:20-25 subtracts rows): for any rows the answer is the unbounded difference of the comparator's key (row, or exact score) wrapped to int, and equal to that difference whenever it fits in an int |
| Comparators.CompareIsKeyDifference | src/main/java/seats/model/RowPrioritizedSeatComparator.java:20-25 | on safe rows both comparators return the difference of their keys (row, or score) |
| Comparators.CompareReflexive | src/main/java/seats/model/ComprehensiveSeatComparator.java:52-57 | every seat compares equal to itself under both comparators |
| Comparators.ComprehensiveOrdering | src/main/java/seats/model/ComprehensiveSeatComparator.java:24-57 | on safe rows compare is antisymmetric and transitive, and a seat in a lower row always compares less, whatever the flags |
| Comparators.ComprehensiveOverflowExample | src/main/java/seats/model/ComprehensiveSeatComparator.java:52-57 | with rows 1 and 214748366 the score difference overflows and the seat nearer the stage compares greater |
| Comparators.RowPrioritizedOrdering | src/main/java/seats/model/RowPrioritizedSeatComparator.java:20-25 | for non-negative int rows: negative iff the row is lower, zero iff the rows are equal, antisymmetric, transitive |
| SeatLocator.Insert | src/main/java/seats/services/ComparatorBasedSeatLocatorService.java:77 | insertion adds exactly one copy of the seat |
| SeatLocator.StableSort | src/main/java/seats/services/ComparatorBasedSeatLocatorService.java:77 | the sorted list is a permutation of the input |
| SeatLocator.InsertSorted | src/main/java/seats/services/ComparatorBasedSeatLocatorService.java:77 | on safe rows, inserting into a sorted list keeps it sorted |
| SeatLocator.InsertFilterKey | src/main/java/seats/services/ComparatorBasedSeatLocatorService.java:77 | on safe rows, an inserted seat goes after the seats of its own key |
| SeatLocator.StableSortCorrect | src/main/java/seats/services/ComparatorBasedSeatLocatorService.java:77 | on safe rows the sort is ordered by the comparator's key, and for every key keeps the seats of that key in their original order (stability) |
| SeatLocator.SortedPrefixBest | src/main/java/seats/services/ComparatorBasedSeatLocatorService.java:80-83 | a prefix of a sorted list is sorted, and no seat outside it ranks before a seat in it |
| SeatLocator.LocatedAreBest | src/main/java/seats/services/ComparatorBasedSeatLocatorService.java:76-85 | the first n seats of the sort are n of the input's seats; on safe rows they are in order and none left out ranks before one taken |
| SeatLocator.StableSortDistinct | src/main/java/seats/services/ComparatorBasedSeatLocatorService.java:77 | sorting keeps seat coordinates distinct |
| SeatLocator.LocatedFromList | src/main/java/seats/services/ComparatorBasedSeatLocatorService.java:80-83 | the located seats come from the open-seat list and keep distinct coordinates |
| SeatLocator.TakeFirst | src/main/java/seats/services/ComparatorBasedSeatLocatorService.java:80-83 | the copy loop yields exactly the first n seats of the sorted list, in order |
| SeatLocator.ComparatorBasedSeatLocatorService.constructor | src/main/java/seats/services/ComparatorBasedSeatLocatorService.java:24-53 | the Java class has only the implicit no-argument constructor, venue and comparator null; the Dafny constructor stands for `new` followed by `setVenue` and `setComparator`, and starts with the given venue and comparator |
| SeatLocator.ComparatorBasedSeatLocatorService.Located | src/main/java/seats/services/ComparatorBasedSeatLocatorService.java:60-86 | a successful answer has exactly the number of seats asked for |
| SeatLocator.ComparatorBasedSeatLocatorService.SetVenue | src/main/java/seats/services/ComparatorBasedSeatLocatorService.java:40 | sets the venue and nothing else |
| SeatLocator.ComparatorBasedSeatLocatorService.SetComparator | src/main/java/seats/services/ComparatorBasedSeatLocatorService.java:51-53 | sets the comparator and nothing else |
| SeatLocator.ComparatorBasedSeatLocatorService.LocatedAreBestOpenSeats | src/main/java/seats/services/ComparatorBasedSeatLocatorService.java:60-86 | the located seats are numSeats of the venue's open seats; on safe rows they are in comparator order and no open seat left out ranks before one taken |
| SeatLocator.ComparatorBasedSeatLocatorService.LocatedAreVenueSeats | src/main/java/seats/services/ComparatorBasedSeatLocatorService.java:60-86 | in a well-formed venue the located seats are the venue's own open seats at their coordinates, no two alike |
| SeatLocator.ComparatorBasedSeatLocatorService.LocateSeats | src/main/java/seats/services/ComparatorBasedSeatLocatorService.java:60-86 | a count below 1 is IllegalArgumentException, a missing venue NullPointerException, too few open seats InsufficientAvailableSeatsException; it succeeds exactly otherwise, with the answer Located specifies |
| Venues.Venue.constructor | src/main/java/seats/model/Venue.java:40-42 | a new venue has no rows and zero dimensions |
| Venues.Venue.GetSeatsByRow | src/main/java/seats/model/Venue.java:55-70 | a row below 1 or above rowCount is rejected with its message; otherwise the stored list, or null when none is stored |
| Venues.Venue.GetRow | src/test/java/seats/model/VenueFactoryTest.java:51-70 | the same rejections as getSeatsByRow; otherwise the row with that number and its seats, rowSeatCount of them in a well-formed venue |
| Venues.Venue.AddSeatsForRow | src/main/java/seats/model/Venue.java:84-90 | a row below 1 is rejected and nothing changes; otherwise the row's list is replaced and no other row changes |
| Venues.Venue.SetSeatsByRow | src/main/java/seats/model/Venue.java:75-77 | replaces the seat map |
| Venues.Venue.SetCenterRowSize | src/main/java/seats/model/Venue.java:100-102 | sets the center-row size |
| Venues.Venue.SetRowCount | src/main/java/seats/model/Venue.java:112 | sets the row count |
| Venues.Venue.SetRowSeatCount | src/main/java/seats/model/Venue.java:122-124 | sets the seats per row |
| Venues.Venue.CoordinateError | src/test/java/seats/model/VenueTest.java:21-110 | coordinates are an IllegalArgumentException exactly when they name no seat of the venue |
| Venues.Venue.GetOpenSeats | src/main/java/seats/services/ComparatorBasedSeatLocatorService.java:68-69 | every seat listed is open |
| Venues.Venue.OpenSeatsAreVenueSeats | src/main/java/seats/services/ComparatorBasedSeatLocatorService.java:68-69 | in a well-formed venue each listed open seat is the venue's seat at its coordinates |
| Venues.Venue.OpenSeatsComplete | src/main/java/seats/services/GenericTicketService.java:93-95 | in a well-formed venue every open seat is listed |
| Venues.Venue.GetSeatCount | src/test/java/seats/services/GenericTicketServiceTest.java:70-75 | a well-formed venue has rowCount * rowSeatCount seats |
| Venues.Venue.HoldSeat | src/test/java/seats/model/VenueTest.java:15-110 | bad coordinates, then a blank e-mail, are IllegalArgumentException, a seat not open is SeatUnavailableException, and nothing changes; otherwise exactly that seat becomes held for the e-mail and is returned |
| Venues.Venue.ReserveSeat | src/main/java/seats/services/GenericTicketService.java:178-197 | bad coordinates or a blank e-mail are IllegalArgumentException with no change; otherwise the seat is reserved if it is held for that e-mail, and left alone with SeatUnavailableException if not |
| Venues.Venue.UnholdSeat | src/main/java/seats/services/ExpiringTransientSeatHoldingService.java:102-120 | bad coordinates are IllegalArgumentException with no change; a held seat is opened; any other seat is left alone with SeatNotHeldException |
| Venues.Venue.HoldSeatObject | src/main/java/seats/services/GenericTicketService.java:136-138 | Seat.hold on a located seat holds the venue seat at its coordinates |
| Venues.ApplyAt | src/main/java/seats/services/GenericTicketService.java:136-138 | applying an operation at a stored position replaces exactly that seat; elsewhere nothing changes |
| Venues.AppliedStep | src/main/java/seats/services/GenericTicketService.java:178-197 | one more operation in a loop extends the round by its position, even if listed twice |
| Venues.AppliedFollowsLifecycle | src/main/java/seats/services/GenericTicketService.java:178-197 | a round of operations moves every seat only along the lifecycle |
| Venues.AppliedKeepsWellFormed | src/main/java/seats/VenueFactory.java:33-51 | a round of seat operations keeps the venue's layout |
| Venues.OpenAtMostSeats | src/main/java/seats/services/GenericTicketService.java:88-96 | a venue never has more open seats than seats |
| Venues.ReserveKeepsOpenSeats | src/main/java/seats/services/GenericTicketService.java:178-197 | reserving seats leaves the open seats exactly as they were |
| Venues.OpenSeatsFromAreVenueSeats | src/main/java/seats/services/ComparatorBasedSeatLocatorService.java:68-69 | in a well-formed venue the open-seat list holds the venue's own open seats, in row then seat order |
| Venues.OpenSeatsDistinct | src/main/java/seats/services/ComparatorBasedSeatLocatorService.java:68-69 | the open seats of a well-formed venue have pairwise distinct coordinates |
| Venues.OpenSeatsFromComplete | src/main/java/seats/services/ComparatorBasedSeatLocatorService.java:68-69 | every open seat of the rows is in the open-seat list |
| Venues.OpenCountUpdate | src/main/java/seats/services/GenericTicketService.java:136-138 | changing one seat changes the open count by the change in that seat's openness |
| Venues.HoldRemovesOneOpenSeat | src/test/java/seats/services/GenericTicketServiceTest.java:204-208 | holding an open seat of a well-formed venue removes exactly one open seat |
| SeatHolding.ExpiredIds | src/main/java/seats/services/ExpiringTransientSeatHoldingService.java:92-99 | exactly the ids of holds created before the cutoff |
| SeatHolding.Surviving | src/main/java/seats/services/ExpiringTransientSeatHoldingService.java:92-124 | exactly the entries not created before the cutoff, unchanged |
| SeatHolding.SweepIndexStep | src/main/java/seats/services/ExpiringTransientSeatHoldingService.java:99-123 | one pass of the sweep removes the entry if it lapsed and keeps it otherwise |
| SeatHolding.AsWrittenIgnoresExpirationTime | src/main/java/seats/services/ExpiringTransientSeatHoldingService.java:88-89 | as written, a hold lapses when created before now, whatever the expiration time |
| SeatHolding.AsWrittenExpiresFreshHold | src/main/java/seats/services/ExpiringTransientSeatHoldingService.java:88-99 | a hold one millisecond old with a one-minute expiration lapses as written and survives the corrected cutoff |
| SeatHolding.CorrectedExpiresOnlyOldHolds | src/main/java/seats/services/ExpiringTransientSeatHoldingService.java:87-99 | with the corrected cutoff a hold lapses exactly when it is older than the expiration time |
| SeatHolding.ExpiringTransientSeatHoldingService.constructor | src/main/java/seats/services/ExpiringTransientSeatHoldingService.java:76-80 | an empty index and the id counter at 0 |
| SeatHolding.ExpiringTransientSeatHoldingService.SetVenue | src/main/java/seats/services/ExpiringTransientSeatHoldingService.java:148 | sets the venue |
| SeatHolding.ExpiringTransientSeatHoldingService.SetExpirationTimeInMilliSeconds | src/main/java/seats/services/ExpiringTransientSeatHoldingService.java:163-165 | sets the expiration time |
| SeatHolding.ExpiringTransientSeatHoldingService.SetExpirationCheckCycleTimeInMilliSeconds | src/main/java/seats/services/ExpiringTransientSeatHoldingService.java:178-180 | sets the check cycle time |
| SeatHolding.ExpiringTransientSeatHoldingService.GetSeatHoldCount | src/main/java/seats/services/ExpiringTransientSeatHoldingService.java:226-228 | the number of stored holds, saturated at Integer.MAX_VALUE |
| SeatHolding.ExpiringTransientSeatHoldingService.GetSeatHoldingCount | src/main/java/seats/services/ExpiringTransientSeatHoldingService.java:185 | the same count as getSeatHoldCount |
| SeatHolding.ExpiringTransientSeatHoldingService.AddSeatHold | src/main/java/seats/services/ExpiringTransientSeatHoldingService.java:191-202 | the counter advances by one with int wrap-around; the hold is stored and returned under the new id; every other entry is kept; until the counter wraps the new id is larger than every earlier one and unused, so the number of holds grows by one (the class invariant ties the counter to the number of holds added and every stored id to the range it has handed out) |
| SeatHolding.ExpiringTransientSeatHoldingService.RemoveSeatHoldById | src/main/java/seats/services/ExpiringTransientSeatHoldingService.java:208-221 | an unknown id is NoSuchSeatHoldException with no change; otherwise exactly that entry is removed |
| SeatHolding.ExpiringTransientSeatHoldingService.GetSeatHoldById | src/main/java/seats/services/ExpiringTransientSeatHoldingService.java:234-243 | the stored hold, which carries the id asked for, or NoSuchSeatHoldException exactly when the id is unknown |
| SeatHolding.ExpiringTransientSeatHoldingService.UnholdSeats | src/main/java/seats/services/ExpiringTransientSeatHoldingService.java:102-120 | succeeds exactly when the venue is set and names every seat; then every held seat of the hold is opened once; a failure is NullPointerException or IllegalArgumentException, after changes only to seats of the hold |
| SeatHolding.ExpiringTransientSeatHoldingService.ExpireOne | src/main/java/seats/services/ExpiringTransientSeatHoldingService.java:93-123 | a hold not created before the cutoff is left alone; a lapsed one has its seats opened and is removed, unless releasing fails, in which case the index is unchanged |
| SeatHolding.ExpiryMonotone | src/main/java/seats/services/ExpiringTransientSeatHoldingService.java:99 | a hold is live at its own creation time, one lapsed at a cutoff lapses at every later cutoff, and a later cutoff keeps no hold an earlier one drops |
| SeatHolding.ExpiringTransientSeatHoldingService.ExpireSeatHoldingsBefore | src/main/java/seats/services/ExpiringTransientSeatHoldingService.java:92-124 | in whatever order the index is walked: succeeds exactly when every lapsed hold can be released; then the index is the surviving holds and exactly the lapsed holds' seats are opened; a failure removes only lapsed holds and changes only their seats |
| SeatHolding.ExpiringTransientSeatHoldingService.SweepOne | src/main/java/seats/services/ExpiringTransientSeatHoldingService.java:93-123 | one pass of the sweep keeps the loop's account of swept holds and released seats, or fails only on a lapsed hold that cannot be released |
| SeatHolding.ExpiringTransientSeatHoldingService.ExpireSeatHoldings | src/main/java/seats/services/ExpiringTransientSeatHoldingService.java:86-125 | the sweep as written, with the current time as the cutoff, with the whole contract of ExpireSeatHoldingsBefore: success exactly when every hold created before now can be released, then those holds removed and exactly their seats opened; whatever the outcome, no hold created at or after now is removed, no hold is altered, and only the lapsed holds' seats change |
| SeatHolding.ExpiringTransientSeatHoldingService.ExpireSeatHoldingsCorrected | src/main/java/seats/services/ExpiringTransientSeatHoldingService.java:86-125 | the sweep with the cutoff now minus the expiration time, with the whole contract of ExpireSeatHoldingsBefore at that cutoff: on success exactly the seats of the holds older than the expiration time are opened; whatever the outcome, every hold no older than the expiration time is kept unchanged and only the lapsed holds' seats change |
| TicketService.Request | src/main/java/seats/services/GenericTicketService.java:104-107 | the request carries the e-mail and the count asked for, with no seats and no status |
| TicketService.HeldCopies | src/main/java/seats/services/GenericTicketService.java:136-138 | the located seats at the same coordinates, each now held for the e-mail |
| TicketService.Answer | src/main/java/seats/services/GenericTicketService.java:117-141 | SUCCESS with the located seats held exactly when the locator succeeds; the failure kind with the exception's message for InsufficientAvailableSeats and IllegalArgument; any other exception passes through |
| TicketService.HoldStep | src/main/java/seats/services/GenericTicketService.java:136-138 | each pass of the hold loop extends the round by one position and removes one open seat |
| TicketService.HeldAfterRound | src/main/java/seats/services/GenericTicketService.java:136-138 | after the loop every located seat is held for the e-mail |
| TicketService.HoldAll | src/main/java/seats/services/GenericTicketService.java:136-138 | the located seats, and no others, become held for the customer, and the open count drops by their number |
| TicketService.HoldRound | src/main/java/seats/services/GenericTicketService.java:136-138 | the loop of HoldAll on the grid: one hold per seat, the layout kept, the open count down by the number of seats |
| TicketService.ReserveAll | src/main/java/seats/services/GenericTicketService.java:178-197 | a blank e-mail fails at the first seat with no change; otherwise each seat of the list is reserved if held for the e-mail, and skipped if not |
| TicketService.ReservedAfterRound | src/main/java/seats/services/GenericTicketService.java:178-197 | seats all held or reserved for the e-mail are all reserved for it after the loop |
| TicketService.GenericTicketService.constructor | src/main/java/seats/services/GenericTicketService.java:43 | nothing is set |
| TicketService.GenericTicketService.SetVenue | src/main/java/seats/services/GenericTicketService.java:53 | sets the venue |
| TicketService.GenericTicketService.SetSeatLocatorService | src/main/java/seats/services/GenericTicketService.java:81-83 | sets the locator |
| TicketService.GenericTicketService.SetSeatHoldingService | src/main/java/seats/services/GenericTicketService.java:66-68 | sets the holding service |
| TicketService.GenericTicketService.NumSeatsAvailable | src/main/java/seats/services/GenericTicketService.java:88-96 | 0 without a venue, otherwise the number of open seats, which is at most the number of seats |
| TicketService.GenericTicketService.ValidateEmailAddressesMatch | src/main/java/seats/services/GenericTicketService.java:227-250 | false for no seats; NullPointerException when a seat has no e-mail; otherwise true exactly when every seat carries the e-mail to match |
| TicketService.GenericTicketService.FindAndHoldSeats | src/main/java/seats/services/GenericTicketService.java:102-145 | a blank e-mail is answered at once with FAILURE_DUE_TO_INVALID_PARAMETERS; otherwise the answer's seats are held in the venue (open count down by numSeats) and the answer is registered under the next id; exceptions other than the two caught pass through with nothing changed |
| TicketService.GenericTicketService.HoldAndRegister | src/main/java/seats/services/GenericTicketService.java:134-144 | the located seats, if any, are held; then the answer is stored under a new id |
| TicketService.GenericTicketService.Register | src/main/java/seats/services/GenericTicketService.java:140-141 | addSeatHold on the answer: the next id, stored and returned; a missing holding service is NullPointerException |
| TicketService.GenericTicketService.HoldLocated | src/main/java/seats/services/GenericTicketService.java:135-138 | the located seats become held, the open count drops by their number, and the answer's seats are the venue's seats as they now are |
| TicketService.GenericTicketService.ReserveSeats | src/main/java/seats/services/GenericTicketService.java:154-215 | a negative id, an unknown id, an e-mail mismatch or an open seat fail with nothing changed; otherwise every seat of the hold is reserved for the customer, the hold is removed, the open count is unchanged, and the confirmation code is returned |
| TicketService.GenericTicketService.ReserveMatched | src/main/java/seats/services/GenericTicketService.java:177-214 | once the e-mails match: the seats are reserved, the hold dropped and the code returned, or a blank e-mail fails with no change |
| TicketService.GenericTicketService.DropHold | src/main/java/seats/services/GenericTicketService.java:199-211 | the release step removes exactly the reserved hold from the store and keeps the service wiring valid |
| StatefulTicketService.Reported | src/main/java/seats/services/StatefulTransientTicketService.java:73-90 | SUCCESS when the locator succeeds; the failure kind with the message for the two exceptions it catches; any other exception passes through; no seats are attached |
| StatefulTicketService.ReportedIsAnswerWithoutSeats | src/main/java/seats/services/StatefulTransientTicketService.java:66-91 | the stateful answer is the generic service's answer to the same locator outcome, without its seats |
| StatefulTicketService.StatefulTransientTicketService.constructor | src/main/java/seats/services/StatefulTransientTicketService.java:28 | nothing is set |
| StatefulTicketService.StatefulTransientTicketService.SetVenue | src/main/java/seats/services/StatefulTransientTicketService.java:38 | sets the venue |
| StatefulTicketService.StatefulTransientTicketService.SetSeatLocator | src/main/java/seats/services/StatefulTransientTicketService.java:49-51 | sets the locator |
| StatefulTicketService.StatefulTransientTicketService.NumSeatsAvailable | src/main/java/seats/services/StatefulTransientTicketService.java:57-60 | NullPointerException exactly when there is no venue; otherwise the number of open seats, at most the number of seats |
| StatefulTicketService.StatefulTransientTicketService.FindAndHoldSeats | src/main/java/seats/services/StatefulTransientTicketService.java:66-91 | a missing locator is NullPointerException; otherwise a new hold with the e-mail and the reported status, SUCCESS exactly when numSeats > 0 and the locator succeeds, and never any seats; nothing changes |
| StatefulTicketService.StatefulTransientTicketService.ReserveSeats | src/main/java/seats/services/StatefulTransientTicketService.java:97-99 | answers "ok" for any input |

## Left out

- Scheduling: `init`, the single-thread scheduled executor and its cycle time, and the catch-all around the sweep are not modelled. The cycle time is stored only. The sweep is a method called with the current time.
- Concurrency is not modelled: `synchronized`, the ConcurrentHashMap and the races the source comments on. `ExpireSeatHoldingsBefore` is proved for any order of visiting the index.
- Logging and the log-only messages are not modelled.
- `Venues.Venue.GetOpenSeats`: its own contract only says each listed seat is open. That the seats are the venue's own, in order and complete is proved in `OpenSeatsAreVenueSeats`, `OpenSeatsComplete` and `OpenSeatsFromAreVenueSeats`, for well-formed venues.
- Venue operations absent from `Venue.java` (`getOpenSeats`, `holdSeat`, `reserveSeat`, `unholdSeat`, `getRow`, `getSeatCount` and `Seat.hold`) are modelled from their call sites and tests. The messages they use are the ones `Messages.java` defines for those cases.
- Seat aliasing is modelled by coordinates: a seat in a hold stands for the venue seat at its row and seat number. A seat object shared by two venues, or one with coordinates differing from its place in the grid, is not modelled.
- `SeatLocator.StableSort`: Collections.sort is modelled as a stable insertion sort. On rows where a comparator overflows (above row 214748364 for the comprehensive one), the comparator is not a consistent order. Java's TimSort may then answer differently or throw; that is not modelled.
- `SeatUtils.CalculateCenterSeat`: float halving and Math.floor/Math.ceil are modelled as exact integer floor/ceiling division. That matches the source for row sizes below 2^24, where float division is exact.
- A null comparator in the locator is not modelled: the comparator is always one of the two core comparators.
- The services are bound to the core implementations: the locator is `ComparatorBasedSeatLocatorService` and the holding service `ExpiringTransientSeatHoldingService`. `StageProximitySeatLocatorService`, the durable holding services, the repository and the web controller are not part of this model.
- `TicketService.GenericTicketService.FindAndHoldSeats` and `ReserveSeats` require the wiring the services are used with (`Valid`): the locator and holding service share the ticket service's venue, the venue is well formed, and stored holds name seats of it.
- A `SeatHold` always has a seat list, as its constructor creates one. The null checks on `seatsHeld` never fire and are not modelled.
- `SeatHolding.ExpiringTransientSeatHoldingService.AddSeatHold`: the id counter wraps to negative ids after Integer.MAX_VALUE holds, as AtomicInteger does. A hold stored under a negative id can then not be reserved. The model keeps this behaviour rather than ruling it out, and promises a fresh id and a count grown by one only while the counter has not wrapped.
- `Venues.Venue.GetRow`: a row that is within range but not stored yields a row with no seats, since the source's `getRow` is not shown.

## Findings

| source | as written | input that shows it | evidently intended | confidence | as-written member | corrected member |
|---|---|---|---|---|---|---|
| src/main/java/seats/services/ExpiringTransientSeatHoldingService.java:88-89 | `maxAgePermitted.minus(expirationTimeInMilliSeconds)` returns a new DateTime that is discarded, so the cutoff stays at the current time | a hold created 1 ms before a sweep, with a 60000 ms expiration time, is expired and its seats are opened | the cutoff is the current time less the expiration time, so only holds older than the expiration time lapse | high (not executed) | SeatHolding.ExpiringTransientSeatHoldingService.ExpireSeatHoldings, SeatHolding.AsWrittenExpiresFreshHold, SeatHolding.AsWrittenIgnoresExpirationTime | SeatHolding.ExpiringTransientSeatHoldingService.ExpireSeatHoldingsCorrected, SeatHolding.CorrectedExpiresOnlyOldHolds |
