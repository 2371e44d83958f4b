# Restaurant reservation records — a Dafny model

This project models the record logic of a small command-line reservation
manager for one restaurant. Each reservation has a guest name, a date, a time
and a number of guests. The reservations are kept in memory as an ordered
collection and written in full to a spreadsheet after each change.

The model covers four parts of `run.py`:

- **The four field checks** a new reservation must pass, in this order:
  1. The name must differ, ignoring case, from every stored name.
  2. The date must read as `DD-MM-YYYY` and must not be before today.
  3. The time must read as `HH:MM` and must lie between 08:00 and 22:00, both included.
  4. The guest count must read as an integer and must be greater than zero.
- **Add**: the record is appended once all four checks pass.
- **Serialisation** of the collection into a grid of strings for the worksheet.
  Null dates, times and counts become empty cells. The load-time coercion of
  date and time cells reads a written cell back as the stored value.
- **View**: returns an explicit empty signal when there are no reservations.
  Otherwise the reservations are ordered by date, then time, and numbered
  1..n after ordering.

Modules, one file each:

| file | module | contents |
|---|---|---|
| `wrappers.dfy` | `Wrappers` | `Option` (`None` is a null cell), `Result` |
| `text.dfy` | `Text` | ASCII digits, zero padding, ASCII `str.lower`, Python's `int()` on text, `str(n)` |
| `calendar.dfy` | `Calendar` | Gregorian dates in years 1..9999, the day order, the next day, minutes-of-day times |
| `formats.dfy` | `Formats` | `strptime`/`strftime` for `%d-%m-%Y` and `%H:%M`, and their round trips |
| `reservations.dfy` | `Reservations` | the record, the four checks, append, and the whole add operation |
| `add_properties.dfy` | `AddProperties` | boundary cases and invariants of the checks and of add |
| `table.dfy` | `Table` | the header row and the written rows |
| `view.dfy` | `View` | the listing order, insertion sort, numbering, and the empty signal |

Modelling choices:

- **Today is a parameter.** `datetime.date.today()` is a clock read, so the date
  check takes `today` as an argument.
- **Date parsing follows `strptime`.** Each directive of `strptime` is a
  regular-expression alternative:
  - `%d` accepts one or two digits, or a space and a digit.
  - `%m` and `%H` accept one or two digits.
  - `%Y` accepts exactly four digits.
  - `%M` accepts one or two digits.

  So "1-2-2027", " 1-02-2027" and "8:05" are all accepted. Writing always
  produces the zero-padded form.
- **Parse-then-format keeps only zero-padded text.** Because `strptime` also
  reads unpadded fields, parsing a text and writing it back returns the text
  unchanged only when it is zero-padded. `Formats.FormatParseDate` and
  `Formats.FormatParseTime` prove this in both directions. Format-then-parse
  is the identity for every value.
- **A date is valid when `datetime.date` accepts it.** That means a year
  between 1 and 9999, a month between 1 and 12, and a day that exists in that
  month under the Gregorian leap-year rule.
- **A time is stored as minutes since midnight.**
- **Null cells are `None`.** A date or time that fails to parse on load is a
  null value (`pd.to_datetime(..., errors='coerce')`), and so is a missing
  count.
- **Nulls sort last.** The listing places a null date after every real date.
  Within one date, a null time goes after every real time. This is pandas'
  default for `sort_values`, which the listing code relies on without stating
  it. The model adopts it as an explicit choice.
- **`int()` has CPython's digit limit.** By default CPython refuses to
  convert a numeral of more than 4300 digits (underscores not counted) and
  raises `ValueError`, which the guest prompt treats like any other bad
  number. `Text.ParseInt` returns `None` there, so every guest count the
  model stores has at most 4300 digits (`Reservations.GuestCount`). The limit
  is the interpreter's default; changing it at run time is not modelled.
- **Each interactive loop becomes one check.** The re-prompting loops become
  single check functions. Each returns the value or the error that would have
  caused a re-prompt. The add operation reports the first failing field.

The file as it stands does not parse as Python. `save_reservations` is
mis-indented and has no `self` parameter. `search_reservations` has no body.
`self.reservations` is read in `__init__` but never built from the fetched
rows. The model describes the intended behaviour of the complete fragments.

## Model

| member | source | states |
|---|---|---|
| `Reservations.NameTaken` | run.py:57 | true exactly when some stored name equals the candidate after lower-casing both |
| `Reservations.CheckName` | run.py:54-60 | a name is refused with `DuplicateName` if and only if a stored name matches it ignoring case; otherwise it is accepted unchanged |
| `Reservations.CheckDate` | run.py:62-72 | accepted if and only if the text reads as a `%d-%m-%Y` date that is not before today; the error distinguishes unreadable text from a past date |
| `Reservations.CheckTime` | run.py:74-84 | accepted if and only if the text reads as an `%H:%M` time between 08:00 and 22:00 inclusive; the error distinguishes unreadable text from a time outside opening hours |
| `Reservations.CheckGuests` | run.py:86-95 | accepted if and only if `int()` reads the text (at most 4300 digits) and the value is greater than 0; the error distinguishes non-numbers from non-positive numbers |
| `Reservations.Append` | run.py:97-111 | the new collection is one longer, its first n records are the old ones in order, and the last is the new record |
| `Reservations.AddReservation` | run.py:53-111 | the checks run in the order name, date, time, guests and the first failure is reported; success happens exactly when all pass, and then the old records are kept in order and the last record holds exactly the parsed name, date, time and count |
| `AddProperties.NameCheckIgnoresCase` | run.py:57-60 | "alice" is refused once "Alice" is stored; "Bob" is accepted |
| `AddProperties.AddKeepsNamesUnique` | run.py:57-111 | if no two stored names match ignoring case, the same holds after a successful add |
| `AddProperties.AddedNameIsTaken` | run.py:57-111 | after a successful add, a later add of any case variant of that name fails with `DuplicateName`, whatever its other fields are |
| `AddProperties.CheckDateOfWritten` | run.py:64-68 | a written date is refused as past exactly when it is before today, and accepted as itself otherwise |
| `AddProperties.TodayIsBookable` | run.py:67 | today's date is accepted |
| `AddProperties.YesterdayIsPast` | run.py:67 | the day before today is refused as a past date |
| `AddProperties.SingleDigitFieldsAccepted` | run.py:65 | single-digit day and month fields are read by value |
| `AddProperties.SpacePaddedDayAccepted` | run.py:65 | a day written as a space and a digit is read by value |
| `AddProperties.LeapDayOnlyInLeapYears` | run.py:65 | "29-02-YYYY" is a date exactly when YYYY is a Gregorian leap year |
| `AddProperties.CheckTimeOfWritten` | run.py:76-80 | a written time is refused as outside hours exactly when it is before 08:00 or after 22:00 |
| `AddProperties.ReadTwoDigitTime` | run.py:77 | a two-digit `hh:mm` text is a time exactly when hh is at most 23 and mm at most 59, with the value 60·hh + mm |
| `AddProperties.OpeningTimeBookable` | run.py:79 | "08:00" is accepted |
| `AddProperties.ClosingTimeBookable` | run.py:79 | "22:00" is accepted |
| `AddProperties.MinuteBeforeOpeningRefused` | run.py:79-80 | "07:59" is refused as outside hours |
| `AddProperties.MinuteAfterClosingRefused` | run.py:79-80 | "22:01" is refused as outside hours |
| `AddProperties.HourFieldForms` | run.py:77 | "24:00" is not a time; a one-digit hour such as "8:00" is |
| `AddProperties.CheckGuestsOfWritten` | run.py:88-91 | a written integer of at most 4300 digits is refused exactly when it is not positive, and otherwise accepted as itself |
| `AddProperties.GuestBoundaries` | run.py:88-91 | "0" and "-1" are refused as non-positive; "1" is accepted |
| `AddProperties.SpacedCountAccepted` | run.py:88 | `int()` ignores surrounding whitespace: " 4\n" is accepted as 4 |
| `AddProperties.PlusSignedCountAccepted` | run.py:88 | a leading `+` is accepted: "+5" is accepted as 5 |
| `AddProperties.UnderscoredCountAccepted` | run.py:88 | an underscore between digits is accepted and ignored: "1_2" is accepted as 12 |
| `AddProperties.WordCountRefused` | run.py:88-95 | "four" is refused as not a number |
| `Text.ParseFormatInt` | run.py:88 | reading back the decimal text of any integer of at most 4300 digits gives that integer |
| `Text.ParseInt` | run.py:88 | `int()` on text: every value it yields has at most 4300 decimal digits; `Text.ParseIntForms` and `Text.ParseIntSound` characterise exactly which texts it reads and their values |
| `Text.ParseIntForms` | run.py:88 | for any whitespace `lead` and `trail`, sign "", "+" or "-", and body `u` with no whitespace at its ends and no sign in front: `int(lead + sign + u + trail)` succeeds exactly when `u` is digits with single underscores between them and at most 4300 digits, and then gives the signed value of `u` |
| `Text.ParseIntSound` | run.py:88 | every text `int()` reads is whitespace, an optional sign, such a body and whitespace, and its value is the signed value of the body |
| `Text.FormatInt` | run.py:45-50 | `str(n)`: a minus sign exactly for negative `n`, then digits without leading zeros whose value is the magnitude of `n`; `Text.ParseFormatInt` reads it back |
| `Text.Lower` | run.py:57 | `str.lower()` on ASCII: same length, each character lower-cased, no capital letter left |
| `Text.LowerIdempotent` | run.py:57 | lower-casing twice gives the same text as lower-casing once |
| `Text.LongNumeralsRefused` | run.py:88-95 | a digit run of more than 4300 digits, leading zeros included, is refused, as CPython's `int()` raises `ValueError` |
| `Calendar.DaysInMonth` | run.py:65 | months have 28 to 31 days, and 29 exactly for February of a leap year |
| `Calendar.NextDay` | run.py:67 | the next day is later, and no valid date lies strictly between a day and its successor |
| `Calendar.BeforeIsStrictTotalOrder` | run.py:67 | the day order is irreflexive, asymmetric, transitive and total |
| `Formats.ParseDate` | run.py:65 | `strptime(text, "%d-%m-%Y").date()`, also the load-time date coercion (run.py:29); a text it reads has 8 to 10 characters; `Formats.ParseDateSound`, `Formats.ParseDateFields`, `Formats.ParseFormatDate` and `Formats.FormatParseDate` characterise it fully |
| `Formats.ParseDateSound` | run.py:65 | every text read as a date splits into day, month and year fields, each matching its `strptime` directive, and the date is their values |
| `Formats.ParseDateFields` | run.py:65 | every `dd-mm-yyyy` text with separator-free short fields is a date exactly when each field matches its directive and the day exists |
| `Formats.ParseTime` | run.py:77 | `strptime(text, "%H:%M").time()`, also the load-time time coercion (run.py:31); a text it reads has 3 to 5 characters; `Formats.ParseTimeSound`, `Formats.ParseTimeFields`, `Formats.ParseFormatTime` and `Formats.FormatParseTime` characterise it fully |
| `Formats.ParseTimeSound` | run.py:77 | every text read as a time splits into hour and minute fields matching `%H` and `%M`, and the time is 60·hour + minute |
| `Formats.ParseTimeFields` | run.py:77 | every `hh:mm` text with a separator-free short hour is a time exactly when both fields match their directives |
| `Formats.FormatDate` | run.py:41 | the written date is always the zero-padded ten-character `DD-MM-YYYY` form |
| `Formats.FormatTime` | run.py:43 | the written time is always the zero-padded five-character `HH:MM` form |
| `Formats.ParseFormatDate` | run.py:29-41 | reading a written date gives the same date |
| `Formats.ParseFormatTime` | run.py:31-43 | reading a written time gives the same time |
| `Formats.FormatParseDate` | run.py:29-41 | a readable date text is written back unchanged if and only if it is zero-padded `DD-MM-YYYY` |
| `Formats.FormatParseTime` | run.py:31-43 | a readable time text is written back unchanged if and only if it is zero-padded `HH:MM` |
| `Table.DateCell` | run.py:29-45 | a null date is written as "" and read back as null; a real date is written as canonical text and read back as itself |
| `Table.TimeCell` | run.py:31-45 | a null time is written as "" and read back as null; a real time is written as canonical text and read back as itself |
| `Table.GuestsCell` | run.py:45-50 | a missing count is written as ""; a count (at most 4300 digits, so `str()` can write it) is written as text that `int()` reads back as the count |
| `Table.Row` | run.py:41-50 | a row has the header's four columns: the name, then date and time cells in zero-padded `DD-MM-YYYY` and `HH:MM` form (empty when null) and a count cell, each reading back as the record's value |
| `Table.Serialise` | run.py:35-50 | the grid has 1 + n rows; row 0 is the fixed header (Name, Date, Time, Number of Guests); row i+1 holds record i with its date and time in zero-padded `DD-MM-YYYY` and `HH:MM` form, every cell reads back as the record's value, and null cells are exactly the empty ones |
| `Table.SerialisedCellsAreFormatted` | run.py:41-43 | the date cell of a written row is exactly the `DD-MM-YYYY` text of the stored date, and the time cell exactly the `HH:MM` text of the stored time |
| `View.ListedNoLaterTotal` | run.py:123 | any two reservations are ordered one way or the other by (date, time) |
| `View.ListedNoLaterTransitive` | run.py:123 | the (date, time) order with nulls last is transitive |
| `View.Insert` | run.py:123 | inserting into an ordered sequence keeps it ordered and adds exactly the new reservation |
| `View.Sort` | run.py:123 | the result is ordered by date then time and is a permutation of the input |
| `View.SortKeepsSorted` | run.py:123 | a sequence already in listing order is left as it is |
| `View.SortIdempotent` | run.py:123 | ordering twice gives the same result as ordering once |
| `View.Numbered` | run.py:125 | the lines carry the given reservations in order, numbered 1..n |
| `View.ViewReservations` | run.py:115-125 | the empty signal appears exactly for an empty collection; otherwise every reservation appears as often as it is stored, ordered by (date, time), with indices 1..n in output order |
| `View.NullDatesListedLast` | run.py:123 | once a listed line has a null date, every later line has one too |
| `View.FirstBookingListedAlone` | run.py:97-125 | after a successful add to an empty collection, the listing is a single line numbered 1 with exactly the fields entered |

## Left out

- Search and delete: `search_reservations` (run.py:133) has no body and there is no delete operation, so there is no behaviour to model.
- The menu and `main` (run.py:135-136) are an unfinished fragment with no behaviour to model.
- Google Sheets credentials and the worksheet handle (run.py:6-20) are an external network service, and so is the `worksheet.update` call (run.py:47-51). Only the grid handed to it is modelled (`Table.Serialise`).
- Loading: `get_all_values` (run.py:27) is network I/O, and its rows are never turned into the collection. Only the per-cell date and time coercion is modelled (`ParseDate`, `ParseTime` returning `None`).
- The `input()`/`print` retry loops are console I/O. Each loop is one check that returns the value or the error that would cause a re-prompt. The printed listing (run.py:126-131) is output formatting and is not modelled either.
- pandas dtype checks and conversions (run.py:37-39, 109, 119-121) are library internals; typed records replace them. The pandas timestamp range (years 1677 to 2262) is also left out. Outside it, a loaded date would become null and `pd.to_datetime` at run.py:109 would raise. The model accepts any year from 1 to 9999.
- Non-ASCII text: `str.lower` is modelled on ASCII letters only. `strptime`'s `\d` and `int()` are modelled on ASCII digits only. `int()`'s whitespace stripping is modelled on ASCII whitespace only.
- View.ViewReservations: does not state the relative order of reservations with equal date and time. The code leaves that to pandas; the insertion sort used here keeps collection order.
- Spreadsheet cells for the name and the guest count are text in the source. Here the name is a string and the count an optional integer, written with `str(n)`.
