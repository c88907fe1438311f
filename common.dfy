/** Types shared by every part of the seat-reservation model: optional values,
    the Java exceptions the core throws or catches (as error values), the
    message constants, Java's 32-bit int arithmetic and StringUtils.isBlank. */
module Common {

  /** A Java reference that may be null. */
  datatype Option<+T> = None | Some(value: T)

  /** The exception kinds of the core, each carrying its message. */
  datatype Error =
    | IllegalArgument(message: string)
    | InsufficientAvailableSeats(message: string)
    | NoSuchSeatHold(message: string)
    | SeatUnavailable(message: string)
    | SeatNotHeld(message: string)
    | NullPointer

  /** A value, or the exception that was thrown instead of returning it. */
  datatype Result<+T> = Ok(value: T) | Err(error: Error)

  /** The outcome of a Java `void` method that may throw. */
  datatype Outcome = Pass | Fail(error: Error)

  // Messages (seats.common.Messages)
  const ROW_SEAT_COUNT_MUST_BE_GREATER_THAN_ZERO := "row seat count must be > 0"
  const CENTER_ROW_SEAT_COUNT_MUST_BE_GREATER_THAN_ZERO := "center row seat count must be > 0"
  const CENTER_ROW_SEAT_COUNT_EXCEEDS_ROW_SIZE := "center row seat count exceeds row size"
  const EMPTY_VENUE_NOT_PERMITTED := "unable to create a venue without seats or rows"
  const ROW_NUMBERS_MUST_BE_GREATER_THAN_OR_EQUAL_TO_ONE := "row numbers must be >= 1"
  const ROW_NUMBER_DOES_NOT_EXIST := "row number does not exist"
  const SEAT_IS_NOT_HELD_OR_RESERVED := "seat is not held or reserved"
  const SEAT_DOES_NOT_EXIST := "seat does not exist"
  const SEAT_IS_NOT_OPEN := "seat is not open"
  const EMAIL_ADDRESS_IS_NULL_OR_BLANK := "email address is null or blank"
  const EMAIL_ADDRESS_DOES_NOT_MATCH := "email address does not match"
  const SEAT_IS_NOT_HELD := "seat is not held"
  const SEAT_IS_RESERVED := "seat is reserved"
  const INSUFFICIENT_OPEN_SEATS := "insufficient open seats"
  const UNABLE_TO_LOCATE_ZERO_OR_NEGATIVE_SEATS := "unable to locate 0 or negative seats in the venue"
  const SEAT_IS_OPEN := "seat is open"
  const SEAT_HOLD_ID_UNKNOWN := "seat hold id unknown"
  const SEAT_STATE_ALTERED := "seat state has been altered"
  const INVALID_SEAT_HOLD_ID := "seat hold id unknown"
  // Used by GenericTicketService but absent from Messages.java; the text is this model's.
  const SEAT_HOLD_CUSTOMER_EMAIL_ADDRESS_MISMATCH := "seat hold customer email address mismatch"

  // Java's 32-bit two's-complement int
  const INT_MIN: int := -0x8000_0000
  const INT_MAX: int := 0x7fff_ffff
  const INT_RANGE: int := 0x1_0000_0000

  predicate IsInt(x: int) {
    INT_MIN <= x <= INT_MAX
  }

  /** The Java int that the mathematical value x wraps around to. */
  function Wrap(x: int): (r: int)
    ensures IsInt(r)
    ensures (x - r) % INT_RANGE == 0
    ensures IsInt(x) ==> r == x
  {
    (x - INT_MIN) % INT_RANGE + INT_MIN
  }

  /** Character.isWhitespace: the Unicode space, line and paragraph separators
      other than the no-break spaces, and the ASCII control whitespace. */
  predicate IsWhitespace(c: char) {
    var n := c as int;
    (9 <= n <= 13) || (28 <= n <= 31) || n == 0x20 || n == 0x1680
    || (0x2000 <= n <= 0x2006) || (0x2008 <= n <= 0x200A)
    || n == 0x2028 || n == 0x2029 || n == 0x205F || n == 0x3000
  }

  /** StringUtils.isBlank: null, empty, or whitespace only. */
  predicate IsBlank(s: Option<string>) {
    s.None? || forall i :: 0 <= i < |s.value| ==> IsWhitespace(s.value[i])
  }

  /** StringUtils.stripStart(s, null): s without its leading whitespace. */
  function StripStart(s: string): (r: string)
    ensures |r| <= |s| && r == s[|s| - |r|..]
    ensures r == [] || !IsWhitespace(r[0])
  {
    if s == [] then []
    else if IsWhitespace(s[0]) then StripStart(s[1..])
    else s
  }

  /** A string is blank exactly when stripping its leading whitespace leaves
      nothing. */
  lemma {:induction false} BlankIffStripsToEmpty(s: string)
    ensures IsBlank(Some(s)) <==> StripStart(s) == []
  {
    if s != [] && IsWhitespace(s[0]) {
      BlankIffStripsToEmpty(s[1..]);
      assert forall i :: 1 <= i < |s| ==> s[i] == s[1..][i - 1];
    }
  }

  /** The e-mail addresses GenericTicketServiceTest uses: null, empty and
      blank ones are blank, a real address is not. */
  lemma BlankExamples()
    ensures IsBlank(None) && IsBlank(Some("")) && IsBlank(Some("  "))
    ensures !IsBlank(Some("customer@gmail.com"))
  {
    assert !IsWhitespace("customer@gmail.com"[0]);
  }
}
