# Contact assistant core, modelled in Dafny

This project models the in-memory core of a command-line personal assistant:
an address book of contacts with validated names, phone numbers and
birthdays, the query for upcoming birthdays with its weekend shift, the
contact search, two notes books (one keyed by generated note ids and tags,
one addressed by list position), and the greedy word wrapper that lays out
table cells. Every operation is a pure function or a method over immutable
values. Each returns the updated value, or the error the program raises.

Modules, one per file:

- `Outcomes` (`outcomes.dfy`): `Option`, `Result`, and the `Error` values with the messages the program shows for them.
- `Strings` (`strings.dfy`): the Python string operations the core relies on.
  - `strip`, `lower`, `isdigit`, substring and prefix tests.
  - `join`, the split on one character, and `split()` into words.
- `Seqs` (`seqs.dfy`): the order-preserving filter that every comprehension and search loop reduces to.
- `Calendar` (`calendar.dfy`): the proleptic Gregorian calendar of Python's `datetime`.
  - Years run from 1 to 9999.
  - Dates have day numbers counted as `toordinal` counts them, weekdays, and order.
  - A `Moment` is a date plus the microseconds since midnight.
- `Fields` (`fields.dfy`): the `Name`, `Phone` and `Birthday` validators.
- `Contacts` (`contacts.dfy`): `Record` and its phone-list operations and display string.
- `AddressBooks` (`addressbooks.dfy`): `AddressBook` and `search_contacts`.
- `Birthdays` (`birthdays.dfy`): `get_upcoming_birthday`.
- `TaggedNotes` (`taggednotes.dfy`): `Note` and `NotesBook` of `src/notes.py`.
- `IndexedNotes` (`indexednotes.dfy`): `Note` and `NoteBook` of `src/note.py`.
- `Wrapping` (`wrapping.dfy`): `wrap_text`.

Python dicts iterate in insertion order, and the order shows in search results and in the birthday listing. So the address book and the tagged notes book are sequences with distinct keys:

- Storing under a key that is already present replaces the value in place.
- Storing under a new key appends it at the end.

`src/note.py` never iterates over its dict, so that book is a Dafny `map`.

Names are looked up exactly:

- `AddressBook.find` matches the stripped name exactly, so letter case matters (`AddressBooks.FindIsCaseSensitive`).
- `AddressBook.delete` likewise strips the name before removing the exact key.

## Model

| member | source | states |
|---|---|---|
| Fields.MakeName | src/main.py:27-30 | A name is accepted exactly when it is not all whitespace. The stored name is the stripped text: non-empty, with no whitespace at either end. Otherwise the blank-name error. |
| Fields.NameIdempotent | src/main.py:27-30 | A stored name given to `Name` again is accepted unchanged. |
| Fields.MakePhone | src/main.py:33-41 | A phone is accepted exactly when its stripped text is ten digits, and the stored value is that stripped text. Each of the three errors (blank, not digits, wrong length) happens exactly under its own condition, in the order the constructor checks them. |
| Fields.PhoneIdempotent | src/main.py:33-41 | Every ten-digit number is accepted as itself. |
| Fields.CalendarDate | src/main.py:48 | Building a `datetime` succeeds exactly for dates the calendar has, and keeps day, month and year. |
| Fields.MakeBirthday | src/main.py:46-55 | A birthday is accepted exactly when the text parsed to a real date in 1900 or later that is not after `now`. Every raised error passes the `except` clause's substring test. A format mismatch, including numbers outside the directives' ranges, becomes the format message. A real date out of range keeps the range message. A year or day the calendar lacks keeps the calendar's own message. Left-over characters after the date keep Python's "unconverted data remains" message, unless the left-over text itself contains "does not match format"; then they become the format message too. |
| Fields.FormatPhraseInMessages | src/main.py:51-55 | The `except` clause's test, "does not match format" in the message, fails for the range message and both calendar messages, so those keep their text. For the left-over-characters message it holds exactly when the left-over text contains the phrase. |
| Contacts.NewRecord | src/main.py:58-61 | A new record has the validated name, no phones and no birthday, and satisfies the record invariant. A blank name is the blank-name error. |
| Contacts.FindPhone | src/main.py:70-76 | A blank argument is an error. Otherwise the stripped phone is returned exactly when the record holds it. |
| Contacts.AddPhone | src/main.py:62-66 | A phone already on the record leaves the record unchanged. A new valid phone is appended at the end. Invalid input fails with a phone error. The record invariant is kept. |
| Contacts.AddPhoneTwice | src/main.py:62-66 | Adding the same phone twice equals adding it once, and the phone occurs exactly once. |
| Contacts.RemovePhone | src/main.py:67-69 | An invalid argument fails. A valid one removes every copy of that phone, keeps every other phone with its multiplicity and in its order, and touches neither name nor birthday. |
| Contacts.Without | src/main.py:69 | The comprehension keeps exactly the phones different from the removed one, with their multiplicities, as a subsequence of the old list (so in their old order), and is the identity when the phone is absent. |
| Contacts.FirstPhoneIndex | src/main.py:78-79 | The loop stops at the first phone equal to the old one, and runs off the end exactly when there is none. |
| Contacts.EditPhone | src/main.py:77-82 | A missing old phone is the not-found error, reported before the new phone is validated. Otherwise the first phone equal to the old one is replaced by the validated new phone, and nothing else changes. |
| Contacts.AddBirthday | src/main.py:83-84 | The validated birthday replaces any earlier one. A validation error is passed on unchanged. |
| Contacts.Display | src/main.py:85-86 | The display string starts with the name and the phones label. For a valid record the rest splits back on ';' into exactly the record's phones. |
| AddressBooks.Lookup | src/main.py:99-101 | The dict lookup finds a stored record under exactly that key, or reports that no record has it. |
| AddressBooks.AddRecord | src/main.py:92-95 | Storing a record makes its name map to it and leaves every other name's record unchanged. A present name keeps its place in the order, a new name goes last, and the one-record-per-name invariant is kept. |
| AddressBooks.Find | src/main.py:96-101 | A blank name is an error. Otherwise the result is the record stored under the stripped name, or none when no record has that exact name. |
| AddressBooks.FindAfterAdd | src/main.py:92-101 | A record just added is found under any spelling that strips to its name. |
| AddressBooks.Delete | src/main.py:102-109 | A blank name, or a name not stored, is an error that names it. Otherwise exactly that record goes: the book is the records before it followed by the records after it, so the others keep their order. The name is no longer found. |
| AddressBooks.FindAfterDelete | src/main.py:96-109 | After a delete the name is no longer found, and finding any other name gives what it gave before. |
| AddressBooks.FindIsCaseSensitive | src/main.py:96-101 | With "Ann" stored, "ann" is not found and " Ann " is. |
| AddressBooks.ValidBookNoDuplicates | src/main.py:91-95 | A book with one record per name holds no record twice. |
| AddressBooks.MatchingContacts | src/main.py:289-296 | The search loop collects, in book order, exactly the records whose lower-cased name or some phone contains the keyword. Each is collected once. |
| AddressBooks.RecordMatches | src/main.py:290-296 | One iteration matches exactly when the keyword is in the lower-cased name or in some phone. |
| AddressBooks.MatchTestMeaning | src/main.py:289-296 | The filtered records are exactly the matching records of the book. |
| AddressBooks.SearchContacts | src/main.py:282-301 | No arguments gives the keyword prompt. No match gives the no-match message. Otherwise the display strings of the matching records, joined by newlines. |
| Birthdays.ReplaceYear | src/main.py:125 | `replace(year=y)` succeeds exactly for a year in range where the day exists, which excludes 29 February in a common year. Each failure carries the calendar's error. |
| Birthdays.NextOccurrence | src/main.py:124-128 | The occurrence found has the birthday's day and month, has not passed at `now`, and falls this year or next. It exists exactly when `OccursAgain` holds. A 29 February birthday needs the current year to be a leap year with the day not yet passed; a later leap year is never tried. Any other birthday fails only when this year's has passed in year 9999. A failure is the calendar's day error, or the year error for the year after `now`'s. |
| Birthdays.NextOccurrenceIsNearest | src/main.py:124-128 | No date with the birthday's day and month that has not yet passed comes before the occurrence found. |
| Birthdays.BirthdayTodayRollsOver | src/main.py:125-128 | A birthday on today's date is found next year unless `now` is exactly midnight, because `replace` keeps the time of day. |
| Birthdays.DaysUntil | src/main.py:130 | `.days` of the difference rounds down: the count of whole days is at most the time from `now` to the occurrence's midnight, and one more day would exceed it. |
| Birthdays.DaysUntilDateDifference | src/main.py:130 | `.days` of the difference is the date difference, less one unless `now` is exactly midnight. |
| Birthdays.DaysUntilNonNegative | src/main.py:124-130 | The day count to the next occurrence is never negative. |
| Birthdays.CelebrationDay | src/main.py:132-135 | A Saturday moves two days and a Sunday one day, both onto a Monday. Other days stay. The result never runs past the calendar's last date. |
| Birthdays.OutcomeMeaning | src/main.py:115-137 | One pass raises exactly when the record has a birthday without a next occurrence, with that error. Otherwise it lists the record exactly when it is in the window. |
| Birthdays.ConsiderRecord | src/main.py:115-137 | One pass of the loop over a record decides as the window definition does. |
| Birthdays.ListingIsWindow | src/main.py:113-138 | The loop's listing succeeds exactly when every record gets through. It is then the filter of the book by the window. |
| Birthdays.ListingError | src/main.py:113-138 | A failed listing carries the error of the first record that raises. Every record before it gets through. |
| Birthdays.UpcomingBirthdays | src/main.py:110-138 | The method computes the listing of the book's records. |
| Birthdays.UpcomingBirthdaysMeaning | src/main.py:110-138 | The result holds exactly the records whose next birthday is at most `period` days away, in book order. Otherwise it is the first raised error. |
| Birthdays.UpcomingMeaning | src/main.py:130-131 | A record is in the window exactly when its day count is at most `period`. That count is the date difference, less one unless `now` is midnight. |
| Birthdays.LeapDayBirthdayFails | src/main.py:124-125 | A 29 February birthday raises the day-out-of-range error on 1 January 2025, so the whole query fails. |
| Birthdays.WeekendShiftOutsideWindow | src/main.py:130-137 | The filter uses the unshifted date. A Saturday birthday two days away is listed for a two-day window although its congratulation day is four days away. |
| TaggedNotes.NewNote | src/notes.py:14-17 | A new note has the given id and text. Missing or empty tags become no tags. |
| TaggedNotes.GetNotes | src/notes.py:66-76 | A known contact gives its notes. An unknown contact gives none. |
| TaggedNotes.Store | src/notes.py:33-36 | Assigning a contact's list sets exactly that contact's notes. Other contacts are unchanged. A known contact keeps its place and a new one goes last. |
| TaggedNotes.AddNote | src/notes.py:33-36 | The note is appended to the contact's list, which is created when missing. Other contacts are unchanged. |
| TaggedNotes.FirstIdMatch | src/notes.py:39-40 | The loop stops at the first note whose id starts with the prefix. |
| TaggedNotes.EditNote | src/notes.py:38-44 | The result is `True` exactly when some note of the contact has an id with that prefix. The first such note gets the new text and tags and keeps its id. Everything else is unchanged. On `False` nothing changes. |
| TaggedNotes.DeleteNote | src/notes.py:46-48 | The contact's list becomes the notes whose id does not start with the prefix, in order. Other contacts are unchanged. The contact is present afterwards even if it was not before. |
| TaggedNotes.DeleteNoteMeaning | src/notes.py:46-48 | Afterwards the contact holds exactly its notes without that id prefix, each as often as before. |
| TaggedNotes.DeleteEmptyPrefixClears | src/notes.py:46-48 | Deleting with an empty prefix removes every note of the contact. |
| TaggedNotes.AllHitsMembers | src/notes.py:52-53 | The nested walk visits exactly the pairs of a contact and one of its notes. |
| TaggedNotes.CollectHits | src/notes.py:50-64 | The nested loops collect the walked pairs that pass the test, in dict then list order. |
| TaggedNotes.SearchByTag | src/notes.py:50-56 | The result is exactly the pairs whose note carries the tag, ignoring case, in walk order. |
| TaggedNotes.SearchByText | src/notes.py:58-64 | The result is exactly the pairs whose note text contains the keyword, ignoring case, in walk order. |
| TaggedNotes.GetAllNotes | src/notes.py:78-85 | The mapping has exactly the stored contacts, each mapped to its notes. |
| IndexedNotes.ListNotes | src/note.py:19-20 | A known contact gives its notes. An unknown contact gives none. |
| IndexedNotes.AddNote | src/note.py:12-17 | The returned note has the text and is appended to the contact's list, which is created when missing. Other contacts are unchanged. |
| IndexedNotes.SearchNotes | src/note.py:22-23 | The result holds exactly the contact's notes whose text contains the keyword, ignoring case. It is a subsequence of the contact's list, so the notes keep their list order. |
| IndexedNotes.SearchNotesMultiplicity | src/note.py:22-23 | Each matching note appears as often as the contact has it. |
| IndexedNotes.EditNote | src/note.py:25-30 | The result is `True` exactly for an index inside the list. That note gets the new text and nothing else changes. On `False` the book is unchanged. |
| IndexedNotes.DeleteNote | src/note.py:32-37 | The result is `True` exactly for an index inside the list. That note is removed and the rest keep their order. On `False` the book is unchanged. |
| IndexedNotes.DeleteNoteRemovesOne | src/note.py:32-37 | A delete removes one occurrence of the note at the index and nothing else. |
| Strings.WordsAreWords | src/pretty_table2.py:17-19 | `split()` gives non-empty words without whitespace, and none exactly when the text is all whitespace. |
| Strings.WordsKeepCharacters | src/pretty_table2.py:17 | The words hold exactly the text's non-whitespace characters, in order. |
| Strings.WordsAreMaximalRuns | src/pretty_table2.py:17 | The text is its words with whitespace runs around them, and two consecutive words always have at least one whitespace character between them. So no word is split in two. |
| Wrapping.Advance | src/pretty_table2.py:24-34 | One turn of the loop keeps the packing invariant. Closed lines are never revised: at most the open line is closed and appended. |
| Wrapping.WrapLines | src/pretty_table2.py:21-38 | Each line is one group of words joined by blanks, and the groups hold every word once, in order. A line of two or more words fits the width. A line is closed only when the next word would not fit after it. There is a line exactly when there is a word. |
| Wrapping.JoinGroups | src/pretty_table2.py:21-38 | The lines joined by blanks give the words joined by blanks. |
| Wrapping.PackedIsWellWrapped | src/pretty_table2.py:21-40 | Packed lines are non-empty, contain no newline and keep the words in order. A line with a blank fits the width. Each break is greedy. |
| Wrapping.WrapText | src/pretty_table2.py:2-40 | Empty text, a width that is not positive, text that fits, or text without words is returned unchanged. Otherwise the result splits on newlines into non-empty, greedily broken lines. Lines with a blank fit the width, and rejoined by blanks they give the text's words. |

## Left out

- Saving and loading with pickle, the command loop, the command table, colour codes and printing are left out; they are input and output around the core.
- The `input_error` decorator, `draw_table`, the help text, the prompt helpers and `errors.py` are not part of this model.
- `datetime.now()` and `datetime.today()` become a `now` parameter, and `uuid.uuid4()` a note id parameter, because clocks and random ids cannot be modelled as values.
- `isinstance` checks are left out: they test types, and the types guarantee them. This covers `Name`, `Phone`, `find_phone`, `add_record`, `find`, `delete`, the `Birthday` check in `get_upcoming_birthday` and the `None` text of `wrap_text`.
- Fields.MakeBirthday: takes what `strptime` read (no match, left-over characters, or three numbers) rather than the raw text, because the lexing rules of `strptime` are library behaviour outside the core.
- Strings: `lower` and `isdigit` are modelled for ASCII only. `strip` and `split` use the whitespace set of Python's `str.isspace` on the Basic Multilingual Plane. Unicode case mappings and digit classes beyond ASCII are left out.
- Contacts.AddPhone: the notice printed for an already-present phone is output and is left out.
- Birthdays.UpcomingBirthdays: requires every stored birthday to be a calendar date, as a `datetime` always is.
- Birthdays.UpcomingBirthdays: the congratulation date's `strftime` text and the `self.period_days` attribute are dropped, because neither reaches the result.
- Birthdays.UpcomingBirthdays: the truthiness test of `user.birthday.value` is left out, because a `datetime` is always true.
- TaggedNotes.EditNote: the notes are values. In the program, `edit_note` mutates the shared `Note` object in place, so a note reference held elsewhere (for example in an earlier search result) sees the change too. That aliasing is not modelled.
- IndexedNotes.EditNote: the same in-place mutation of a shared `Note` object is not modelled.
- Note display (`__str__` of both `Note` classes) is output formatting and is left out.
