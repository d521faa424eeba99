# Contact book: fields, records, address book and the upcoming-birthdays query

This Dafny project models the data core of a command-line contact book (`bot.py`):

- the validated fields of a contact:
  - a name, stripped and non-empty;
  - phone numbers of exactly ten digits;
  - a birthday written `DD.MM.YYYY` that may not lie in the future;
- a `Record`, which holds one name, a list of phones in order and an optional birthday, and
  whose methods add, find, remove and edit phones and set the birthday;
- the `AddressBook`, a dictionary from names to records that keeps insertion order, with
  `add_record`, `find`, `delete` and `get_upcoming_birthdays`;
- the upcoming-birthdays query. For each record in the book's order, it takes the birthday's
  day and month in today's year. Once that day has passed, it moves to next year. The record
  is kept when that day falls between today and seven days later, both days included.

## Module layout

- `outcomes.dfy` (`Outcomes`): `Option`, plus `Result` and `Outcome` for Python's exceptions.
  `Error` names the kind of each raised error.
- `text.dfy` (`Text`): `str.strip()`, over Python's whitespace characters.
- `dates.dfy` (`Dates`): the parts of `datetime.date` the core uses:
  - the proleptic Gregorian calendar over years 1 to 9999, and the `toordinal` day number;
  - `date + timedelta(days=n)`, which raises past 31.12.9999;
  - `date.replace(year=y)`, which raises for 29 February in a common year and for a year
    out of range;
  - the `%d.%m.%Y` text form.
- `fields.dfy` (`Fields`): `Name`, `Phone` and `Birthday`, each built by a function that
  reports the constructor's error.
- `records.dfy` (`Records`): the `Record` class. Its phone list is a `seq` field, updated in
  place by its methods.
- `query.dfy` (`Query`): the query as functions on values, over `Row`s (a name and an
  optional birthday). It comes with lemmas on what a result contains and when it is an error.
- `book.dfy` (`Book`): the `AddressBook` class. It has a map `data` and the dict's key order
  `order`. Its `GetUpcomingBirthdays` method runs the source's loop and is proved equal to the
  query function.

The clock (`datetime.today()`) is a parameter `today: Date` of `MakeBirthday`,
`Record.AddBirthday` and `AddressBook.GetUpcomingBirthdays`.

### Where the contact book's design description and the code differ (the model follows the code)

- **Window length.** The design description asks for birthdays in "the closed interval
  [reference_date, reference_date + 6 days] (a 7-day window starting today, inclusive both
  ends)". `bot.py:143` compares against `today + timedelta(days=7)`, so the window has eight
  days, today through today + 7 (`Query.WindowBounds`, `Query.WindowEndsIncluded`).
- **A worked example.** The design description says that a record with birthday `15.06.1990`,
  "given reference date `20.06.2024`, it includes it with computed date `15.06.2025` (rolled
  forward)". The code does move that birthday to 15.06.2025, but that day is not between
  20.06.2024 and 27.06.2024, so `bot.py:143` drops it and the result is empty
  (`Query.PassedRollsToNextYear`).
- **29 February.** The design description leaves the fallback for a 29 February birthday in a
  common year to the implementer. The code has none: `date.replace` at `bot.py:138` raises
  `ValueError`, and the whole query raises with it (`Query.LeapDayRaises`,
  `Query.OccurrenceFails`).

## Model

| member | source | states |
|---|---|---|
| Text.TrimLeft | bot.py:12 | the result is a suffix of the input, all that it drops is whitespace, and it does not start with whitespace |
| Text.TrimRight | bot.py:12 | the result is a prefix of the input, all that it drops is whitespace, and it does not end with whitespace |
| Text.Trim | bot.py:12 | `str.strip()` is `TrimRight(TrimLeft(s))`; no contract of its own; specified by `Text.TrimSlice`, `Text.TrimEmpty`, `Text.TrimIdempotent` and the contracts of `Text.TrimLeft` and `Text.TrimRight` |
| Text.IsSpace | bot.py:12 | the characters `str.strip()` removes (those `str.isspace()` accepts): U+0009..U+000D, U+001C..U+0020, U+0085, U+00A0, U+1680, U+2000..U+200A, U+2028, U+2029, U+202F, U+205F and U+3000; a predicate, so no contract; `Text.TrimLeft` and `Text.TrimRight` state that exactly these are dropped at the ends, and `Text.TrimEmpty` that a name made only of them is refused (bot.py:22) |
| Text.TrimSlice | bot.py:12 | `strip()` returns a contiguous slice of its input, with only whitespace on either side of it |
| Text.TrimEmpty | bot.py:22 | `strip()` returns the empty string exactly when every character of the input is whitespace |
| Text.TrimIdempotent | bot.py:12 | stripping a stripped string changes nothing |
| Fields.MakeName | bot.py:21-24 | `Name(raw)` raises exactly when `raw` is all whitespace; otherwise the stored name is `raw.strip()`, non-empty and without whitespace at either end |
| Fields.NameRebuild | bot.py:21-24 | building a Name from a stored name's text gives the same name |
| Fields.IsValidPhone | bot.py:36-42 | `Phone.isValid`: exactly ten characters, each an ASCII digit; a predicate, so no contract; used as the success condition of `Fields.MakePhone` and `Fields.Phone.Edit` |
| Fields.MakePhone | bot.py:30-42 | `Phone(raw)` succeeds exactly when `raw` is ten ASCII digits and stores those digits; otherwise it raises the format error |
| Fields.DigitsAreNotSpace | bot.py:31-32 | the `strip()` applied after a successful check leaves a valid number unchanged |
| Fields.Phone.Edit | bot.py:48-53 | `edit` succeeds exactly on a valid number and the phone then holds it; otherwise it raises the format error |
| Fields.MakeBirthday | bot.py:59-68 | a text that is not a `DD.MM.YYYY` date raises the format error; a date after today raises the future error; otherwise the date is stored, lies no later than today, and renders as the stripped input text |
| Fields.BirthdayAcceptsRendered | bot.py:59-68 | every date up to today, written `DD.MM.YYYY`, is accepted as that date |
| Fields.BirthdayRefusesFuture | bot.py:66-67 | every date after today is refused with the future error |
| Fields.Birthday.Text | bot.py:70-71 | `Birthday.__str__` is `Dates.RenderDate` of the stored date; no contract of its own; `Fields.MakeBirthday` states that it gives back the stripped input text |
| Dates.RenderThenParse | bot.py:70-71 | parsing a rendered date with `%d.%m.%Y` gives the date back |
| Dates.ParseThenRender | bot.py:62 | a text that parses as a date renders back to the same text |
| Dates.ParseDate | bot.py:62 | `strptime(s, "%d.%m.%Y").date()` on the two-digit form: a result is always a date `datetime.date` can hold; with `Dates.RenderThenParse` and `Dates.ParseThenRender` it is the inverse of `Dates.RenderDate` |
| Dates.RenderDate | bot.py:71 | `strftime("%d.%m.%Y")`; no contract of its own; specified by `Dates.RenderThenParse` and `Dates.ParseThenRender` |
| Dates.OrdinalOrder | bot.py:140 | the lexicographic order of dates is the order of their day numbers, and equal day numbers mean equal dates |
| Dates.Before | bot.py:140 | date `<` (also `>` at bot.py:66, as `Before` with the operands swapped): lexicographic on year, month and day; a predicate, so no contract; `Dates.OrdinalOrder` states that it is the order of `toordinal` day numbers |
| Dates.NotAfter | bot.py:143 | date `<=` in the chained comparison: the negation of `Before` with the operands swapped; a predicate, so no contract; `Query.WindowBounds` states that the two comparisons at bot.py:143 hold exactly inside the day-number window |
| Dates.AddDays | bot.py:143 | the day n days later is a calendar day not before the start; `Dates.AddDaysOrdinal` states that it adds n to the day number |
| Dates.AddDaysOrdinal | bot.py:143 | adding n days adds n to the day number |
| Dates.Plus | bot.py:143 | `date + timedelta(days=n)`: a result is a valid date not before the start, and the only error is the overflow; `Dates.PlusSpec` states exactly when it succeeds and where it lands |
| Dates.PlusSpec | bot.py:143 | `date + timedelta(days=n)` succeeds exactly when the day number stays within 31.12.9999, and then lands on day number + n |
| Dates.ReplaceYear | bot.py:138 | a successful `replace(year=y)` gives the same month and day in year y, as a valid date |
| Dates.ReplaceYearSpec | bot.py:138 | `replace(year=y)` fails exactly for a year outside 1..9999 (checked first) or for 29 February in a common year |
| Records.IndexOf | bot.py:89-91 | no index exactly when the phone is absent; otherwise the first position holding it |
| Records.Record.constructor | bot.py:77-80 | a new record has the given name, no phones and no birthday |
| Records.Record.New | bot.py:77-80 | `Record(raw)` raises exactly when the name is blank; otherwise it yields a fresh valid record named `raw.strip()` |
| Records.Record.AddPhone | bot.py:82-84 | a valid number is appended, duplicates included; an invalid one raises and leaves the phones unchanged; the birthday is untouched |
| Records.Record.FindPhone | bot.py:86-92 | the format error comes first, then not-found; success happens exactly when the number is stored, and the result is its first position |
| Records.Record.RemovePhone | bot.py:94-96 | on success the phones become `list.remove` of the first equal number; each error leaves them unchanged |
| Records.RemoveFirst | bot.py:96 | `list.remove`; no contract of its own; specified by `Records.RemoveFirstAt`, `Records.RemoveFirstCount` and `Records.AddThenRemove` |
| Records.RemoveFirstAt | bot.py:96 | `list.remove` drops exactly the element at the first matching position and keeps the others in order |
| Records.RemoveFirstCount | bot.py:96 | `list.remove` of a present phone shortens the list by one and removes exactly one copy of it (multiset) |
| Records.AddThenRemove | bot.py:82-96 | removing a number just added restores the list when it was new, and removes the earlier copy when it was already stored |
| Records.Record.EditPhone | bot.py:98-100 | the errors come in find-then-edit order; on success only the first matching phone is replaced by the new number; any error leaves every phone unchanged |
| Records.Record.AddBirthday | bot.py:102-104 | success exactly when `Birthday(raw)` succeeds, replacing any earlier birthday; an error keeps the earlier one; the phones are untouched |
| Records.PhonesTextRoundTrip | bot.py:108 | the `"; "`-joined phone list in a record's text can be split back into exactly the record's phones |
| Records.JoinPhones | bot.py:108 | `'; '.join(str(p) for p in self.phones)`; no contract of its own; specified by `Records.PhonesTextRoundTrip`, which splits it back into exactly the phones |
| Records.Record.Text | bot.py:106-108 | `Record.__str__`; no contract of its own; its phone list is specified by `Records.PhonesTextRoundTrip`, its birthday by `Dates.RenderThenParse` |
| Book.Erase | bot.py:127 | the key order after `del` has exactly the other keys, stays duplicate-free, loses one element, and is unchanged for an absent key |
| Book.RowsOf | bot.py:136 | `self.data.values()` in the key order: one row per key, the i-th row read from the record under the i-th key |
| Book.AddressBook.Rows | bot.py:136 | the rows of the book in its dict order; no contract of its own; defined as `Book.RowsOf` of `order` and `data` |
| Book.AddressBook.constructor | bot.py:111 | a new book is empty and consistent |
| Book.AddressBook.AddRecord | bot.py:114-116 | the record is stored under its own name, replacing any earlier one; a replaced key keeps its place in the order and a new key goes last; the book stays consistent |
| Book.AddressBook.Find | bot.py:118-122 | a record exactly when the name is a key, namely the record stored under it, which carries that name |
| Book.AddressBook.Delete | bot.py:124-129 | raises `KeyError` exactly for an absent name; otherwise it removes that one key from the map and from the order |
| Book.AddressBook.GetUpcomingBirthdays | bot.py:131-153 | the loop's result equals the query over the records in the book's order; every entry names a stored record whose birthday has the entry's day and month, and lies in the window |
| Book.EntriesAreStored | bot.py:136-151 | every entry of a successful query names a record of the book with a birthday of the same day and month, inside the window |
| Query.Occurrence | bot.py:138-141 | the occurrence has the birthday's month and day, is not before today, and falls in next year exactly when this year's date has passed |
| Query.OccurrenceFails | bot.py:138-141 | the occurrence raises exactly for 29 February when today's year is common, or when 29 February of this year has passed; and for a passed birthday in year 9999 |
| Query.Selected | bot.py:137-143 | a row the loop keeps: it has a birthday whose occurrence exists and lies in the window; a predicate, so no contract; `Query.ConsiderSpec` ties it to `Query.Consider` |
| Query.Consider | bot.py:137-151 | one iteration of the loop for one record; no contract of its own; specified by `Query.ConsiderSpec` |
| Query.Upcoming | bot.py:131-153 | the result of `get_upcoming_birthdays` over the rows in order; no contract of its own; specified by `Query.UpcomingFails`, `Query.UpcomingPicks`, `Query.PickedSpec`, `Query.UpcomingSound` and `Query.UpcomingStep`, and `Book.AddressBook.GetUpcomingBirthdays` is proved equal to it |
| Query.WindowBounds | bot.py:143 | the comparison `today <= d <= today + 7 days` holds exactly when d's day number is 0 to 7 days after today's |
| Query.ConsiderSpec | bot.py:137-151 | a record's loop step raises exactly when it has a birthday and `replace` or the window end raises; otherwise it yields an entry exactly when the record is selected, naming it and carrying its occurrence |
| Query.UpcomingFails | bot.py:136-153 | the query raises exactly when some record's step raises |
| Query.PickedSpec | bot.py:136-151 | the selected positions are increasing, in range, and are exactly the rows that are selected |
| Query.UpcomingPicks | bot.py:136-151 | a successful query has one entry per selected row, in the book's order, each naming its row and carrying its occurrence |
| Query.UpcomingSound | bot.py:136-151 | every entry is in the window, not before today, and matches a row's birthday by day and month, in this year or the next exactly as the roll rule says |
| Query.UpcomingStep | bot.py:136-153 | one more loop iteration either ends the query with the step's error, or appends the step's entry, if any |
| Query.UpcomingErrorSticks | bot.py:136-153 | once the query has raised on a prefix of the records, later records do not change the result |
| Query.AheadThisYear | bot.py:138-151 | a birthday five days ahead (15.06 with today 10.06.2024) is returned as 15.06.2024 |
| Query.PassedRollsToNextYear | bot.py:140-143 | a birthday five days past (15.06 with today 20.06.2024) moves to 15.06.2025 and is not returned |
| Query.WindowCrossesNewYear | bot.py:140-143 | with today 28.12.2024, a birthday on 2 January is returned as 02.01.2025 |
| Query.WindowEndsIncluded | bot.py:143 | with today 01.03.2024, birthdays on 1 and 8 March are returned, in the book's order, and one on 9 March is not |
| Query.LeapDayRaises | bot.py:138 | a 29 February birthday in a common year makes the whole query raise |

## Left out

- Everything outside `bot.py:8-153` is not part of this model: the `input_error` decorator,
  the command handlers and the read–eval loop (`bot.py:156-366`), and saving and loading the
  book with `pickle` (`bot.py:176-189`). These are console and file I/O.
- `datetime.today()` is not read. The current date is the parameter `today`.
- Exception messages are not modelled: each raised exception is an `Error` kind.
- `Phone.isValid`: Python's `\d` also matches non-ASCII decimal digits (for example the
  Arabic-Indic ones). The model accepts only `0`–`9`.
- `Dates.ParseDate`: `strptime("%d.%m.%Y")` also accepts one-digit days and months and
  a space-padded day (`1.2.1990`, ` 1.02.1990`); its year is always four digits. The model
  accepts only the two-digit day and month that `strftime` writes back, so a birthday typed
  in the short form is refused here, although the source accepts it. As for phones, `\d` in
  `strptime`'s patterns also matches non-ASCII decimal digits, which the model refuses.
- `Dates.RenderDate`: it always pads the year to four digits. The C library's `%Y` may write
  years below 1000 without padding.
- `Phone.__eq__` and object identity: phones are values compared by their number.
  - `find_phone` returns a `Phone` object; here it returns that object's position in the list.
  - `edit_phone` edits that object in place; here it replaces that list element with the
    edited value. Another reference to the same `Phone` object is not modelled.
- Aliasing between the book and its records: the method specifications need `Valid()` on the
  book. A record changed through another reference while stored in the book must re-establish
  it.
- `Records.Record.Text` (`Record.__str__`, `bot.py:106-108`) and `Fields.Birthday.Text` are
  defined but carry no contract. Their phone list is covered by `Records.PhonesTextRoundTrip`
  and their date by `Dates.RenderThenParse`.
- The entries of `get_upcoming_birthdays`: an entry holds the name and the date. The source's
  dictionary holds the date as text, which is `Dates.RenderDate` of that date.
- The rest of the dictionary interface of `AddressBook`, inherited from `UserDict` (`len`,
  iteration, `in`), is not modelled beyond the map and its key order.
