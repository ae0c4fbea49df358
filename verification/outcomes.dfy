/**
 * Option and Result values used in place of Python's `None` and raised
 * exceptions, and the errors the contact and notes core can raise.
 */
module Outcomes {

  datatype Option<+T> = None | Some(value: T)

  /** Either a value or the error the Python code would have raised. */
  datatype Result<+T, +E> = Ok(value: T) | Err(error: E) {
    predicate IsFailure() {
      Err?
    }

    function PropagateFailure<U>(): Result<U, E>
      requires Err?
    {
      Err(error)
    }

    function Extract(): T
      requires Ok?
    {
      value
    }
  }

  /** Every `ValueError`/`KeyError` the core raises, one constructor per message. */
  datatype Error =
    | BlankName                 // Name, AddressBook.find, AddressBook.delete
    | BlankPhone                // Phone, Record.find_phone
    | PhoneNotDigits            // Phone: not all digits
    | PhoneBadLength            // Phone: not exactly ten characters
    | BadDateFormat             // Birthday: strptime could not match the pattern
    | UnconvertedData(rest: string)  // strptime: characters left after the pattern
    | DayOutOfRange             // the calendar rejects the day for that month
    | YearOutOfRange(year: int) // the calendar rejects the year
    | BirthdayOutOfRange        // Birthday: before 1900 or in the future
    | PhoneNotFound             // Record.edit_phone
    | ContactNotFound(name: string)  // AddressBook.delete

  /** The text of the raised exception. */
  function Message(e: Error): string
  {
    match e
    case BlankName => "Name must be a non-empty string."
    case BlankPhone => "Phone must be a non-empty string."
    case PhoneNotDigits => "Phone number must contain only digits."
    case PhoneBadLength => "Phone number must be 10 digits long."
    case BadDateFormat => "Invalid date format. Use DD.MM.YYYY"
    case UnconvertedData(rest) => "unconverted data remains: " + rest
    case DayOutOfRange => "day is out of range for month"
    case YearOutOfRange(y) => "year " + IntToString(y) + " is out of range"
    case BirthdayOutOfRange => "Year must be between 1900 and the current year."
    case PhoneNotFound => "Phone number not found."
    case ContactNotFound(name) => "Contact '" + name + "' not found."
  }

  /** Decimal rendering of an integer, as Python's `str(int)`. */
  function IntToString(n: int): (s: string)
    ensures |s| > 0
    ensures forall k :: 0 <= k < |s| ==> s[k] == '-' || '0' <= s[k] <= '9'
    decreases if n < 0 then 1 - n else n
  {
    if n < 0 then "-" + IntToString(-n)
    else if n < 10 then [DigitChar(n)]
    else IntToString(n / 10) + [DigitChar(n % 10)]
  }

  function DigitChar(d: int): char
    requires 0 <= d < 10
  {
    ((d + '0' as int) as char)
  }
}
