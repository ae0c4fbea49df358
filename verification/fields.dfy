/**
 * The validated contact fields of `src/main.py`: `Name`, `Phone` and
 * `Birthday`. Each constructor either yields the stored value or the error
 * it raises; no partly built field is observable.
 */
module Fields {
  import opened Outcomes
  import opened Strings
  import opened Calendar

  /** `Name(value)`: the stripped text, which must not be blank. */
  function MakeName(value: string): (r: Result<string, Error>)
    ensures r.Ok? <==> !AllSpace(value)
    ensures r.Ok? ==> r.value == Strip(value) && r.value != [] && Trimmed(r.value)
    ensures r.Err? ==> r.error == BlankName
  {
    var v := Strip(value);
    if v == [] then Err(BlankName) else Ok(v)
  }

  /** A stored name is accepted again unchanged. */
  lemma NameIdempotent(value: string)
    requires MakeName(value).Ok?
    ensures MakeName(MakeName(value).value) == MakeName(value)
  {
    StripIdempotent(value);
  }

  /** What every stored `Phone.value` is: exactly ten decimal digits. */
  predicate IsPhoneNumber(s: string)
  {
    |s| == 10 && IsDigits(s)
  }

  /**
   * `Phone(phone)`: the stripped text, which must be non-blank, all digits
   * and ten characters long, checked in that order.
   */
  function MakePhone(phone: string): (r: Result<string, Error>)
    ensures r.Ok? <==> IsPhoneNumber(Strip(phone))
    ensures r.Ok? ==> r.value == Strip(phone)
    ensures r == Err(BlankPhone) <==> AllSpace(phone)
    ensures r == Err(PhoneNotDigits) <==> !AllSpace(phone) && !IsDigits(Strip(phone))
    ensures r == Err(PhoneBadLength) <==> IsDigits(Strip(phone)) && |Strip(phone)| != 10
  {
    var v := Strip(phone);
    if v == [] then Err(BlankPhone)
    else if !IsDigits(v) then Err(PhoneNotDigits)
    else if |v| != 10 then Err(PhoneBadLength)
    else Ok(v)
  }

  /** A stored phone number is accepted again unchanged. */
  lemma PhoneIdempotent(p: string)
    requires IsPhoneNumber(p)
    ensures MakePhone(p) == Ok(p)
  {
    assert NoSpace(p) by {
      forall i | 0 <= i < |p|
        ensures !IsSpace(p[i])
      {
        assert IsDigit(p[i]);
      }
    }
    StripTrimmed(p);
  }

  /**
   * What `strptime(value, "%d.%m.%Y")` makes of the text before any
   * calendar check: no match for the pattern, a match followed by left-over
   * characters, or the three numbers it read.
   */
  datatype DateText = Unmatched | Unconverted(rest: string) | Parsed(day: int, month: int, year: int)

  /** The ranges the `%d`, `%m` and `%Y` directives can read at all. */
  predicate InDirectiveRange(day: int, month: int, year: int)
  {
    1 <= day <= 31 && 1 <= month <= 12 && 0 <= year <= 9999
  }

  /** `datetime(year, month, day)`, which rejects a year or day the calendar does not have. */
  function CalendarDate(day: int, month: int, year: int): (r: Result<Date, Error>)
    requires 1 <= month <= 12
    ensures r.Ok? <==> ValidDate(Date(year, month, day))
    ensures r.Ok? ==> r.value == Date(year, month, day)
  {
    if !(MinYear <= year <= MaxYear) then Err(YearOutOfRange(year))
    else if !(1 <= day <= DaysInMonth(year, month)) then Err(DayOutOfRange)
    else Ok(Date(year, month, day))
  }

  /** The text the `except` clause of `Birthday` looks for in a raised message. */
  const FormatPhrase := "does not match format"

  /**
   * The `except` clause of `Birthday`: an error whose message contains
   * `FormatPhrase` is replaced by the format error, any other is raised
   * again with its own message.
   */
  function Reported(e: Error): (r: Error)
    ensures Contains(FormatPhrase, Message(e)) ==> r == BadDateFormat
    ensures !Contains(FormatPhrase, Message(e)) ==> r == e
  {
    if Contains(FormatPhrase, Message(e)) then BadDateFormat else e
  }

  /**
   * `Birthday(value)` with `datetime.now()` passed in as `now`. Every
   * `ValueError` goes through `Reported`. `strptime`'s own mismatch message
   * contains `FormatPhrase`, so a format mismatch becomes the format error.
   * The calendar's messages and the range message do not contain it, so
   * they keep their text. Left-over characters keep Python's message unless
   * they themselves contain the phrase.
   */
  function MakeBirthday(text: DateText, now: Moment): (r: Result<Date, Error>)
    requires ValidMoment(now)
    ensures r.Ok? <==> text.Parsed? && ValidDate(Date(text.year, text.month, text.day))
                       && text.year >= 1900 && !DateBefore(now.date, Date(text.year, text.month, text.day))
    ensures r.Ok? ==> r.value == Date(text.year, text.month, text.day)
    ensures r == Err(BadDateFormat) <==>
              || text.Unmatched?
              || (text.Unconverted? && Contains(FormatPhrase, text.rest))
              || (text.Parsed? && !InDirectiveRange(text.day, text.month, text.year))
    ensures r == Err(BirthdayOutOfRange) <==>
              text.Parsed? && ValidDate(Date(text.year, text.month, text.day))
              && (text.year < 1900 || DateBefore(now.date, Date(text.year, text.month, text.day)))
    ensures text.Unconverted? && !Contains(FormatPhrase, text.rest) ==> r == Err(UnconvertedData(text.rest))
    ensures text.Parsed? && InDirectiveRange(text.day, text.month, text.year)
            && !(MinYear <= text.year <= MaxYear) ==>
              r == Err(YearOutOfRange(text.year))
    ensures text.Parsed? && InDirectiveRange(text.day, text.month, text.year)
            && MinYear <= text.year <= MaxYear && !ValidDate(Date(text.year, text.month, text.day)) ==>
              r == Err(DayOutOfRange)
  {
    match text
    case Unmatched => Err(BadDateFormat)
    case Unconverted(rest) =>
      FormatPhraseInMessages(0, rest);
      Err(Reported(UnconvertedData(rest)))
    case Parsed(day, month, year) =>
      FormatPhraseInMessages(year, "");
      if !InDirectiveRange(day, month, year) then Err(BadDateFormat)
      else
        match CalendarDate(day, month, year)
        case Err(e) => Err(Reported(e))
        case Ok(d) =>
          if d.year < 1900 || MomentBefore(now, Midnight(d)) then Err(Reported(BirthdayOutOfRange))
          else Ok(d)
  }

  /**
   * Which raised messages the `except` clause of `Birthday` turns into the
   * format error: none of the calendar's or the range message, and a
   * left-over-characters message exactly when the left-over text contains
   * the phrase.
   */
  lemma FormatPhraseInMessages(year: int, rest: string)
    ensures !Contains(FormatPhrase, Message(BirthdayOutOfRange))
    ensures !Contains(FormatPhrase, Message(DayOutOfRange))
    ensures !Contains(FormatPhrase, Message(YearOutOfRange(year)))
    ensures Contains(FormatPhrase, Message(UnconvertedData(rest))) <==> Contains(FormatPhrase, rest)
  {
    var d, o := 'd', 'o';
    assert FormatPhrase[0] == d && FormatPhrase[1] == o;
    RangeMessageFree();
    DayMessageFree();
    YearMessageFree(year);
    PairFreeChunks();
    ContainsAfterPrefix(FormatPhrase, "unconverted data remains: ", rest);
  }

  lemma RangeMessageFree()
    ensures !Contains(FormatPhrase, Message(BirthdayOutOfRange))
  {
    var s, t := "Year must be between 1900 ", "and the current year.";
    PairFreeChunks();
    NoPairAppend(s, t, 'd', 'o');
    assert s + t == Message(BirthdayOutOfRange);
    NoPairNoContains(FormatPhrase, s + t);
  }

  /** The fixed parts of the messages never hold a 'd' directly followed by an 'o'. */
  lemma PairFreeChunks()
    ensures NoPair("Year must be between 1900 ", 'd', 'o')
    ensures NoPair("and the current year.", 'd', 'o')
    ensures NoPair("year ", 'd', 'o')
    ensures NoPair(" is out of range", 'd', 'o')
    ensures NoPair("unconverted data remains: ", 'd', 'o')
  {
  }

  lemma DayMessageFree()
    ensures !Contains(FormatPhrase, Message(DayOutOfRange))
  {
    assert NoPair(Message(DayOutOfRange), 'd', 'o');
    NoPairNoContains(FormatPhrase, Message(DayOutOfRange));
  }

  lemma YearMessageFree(year: int)
    ensures !Contains(FormatPhrase, Message(YearOutOfRange(year)))
  {
    var head, digits, tail := "year ", IntToString(year), " is out of range";
    PairFreeChunks();
    assert NoPair(digits, 'd', 'o');
    NoPairAppend(head, digits, 'd', 'o');
    NoPairAppend(head + digits, tail, 'd', 'o');
    NoPairNoContains(FormatPhrase, head + digits + tail);
  }
}
