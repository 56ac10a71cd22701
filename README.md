# Holiday calendar: date parsing and spreadsheet import

A Dafny model of the logic inside the `HolidayCalendar` React component
(`src/App.tsx`). The component keeps a list of calendar events. It appends to that
list in two ways:

- **Manual entry.** `handleAddEvent` appends one event from the form's name and
  start and end dates.
- **Spreadsheet import.** When the upload's `complete` callback runs, it walks the
  parsed rows. Every row after the header gives a person's name and a
  comma-separated list of date tokens. A token may carry a time after `" - "`, or
  be the marker `n/a` (in any letter case).
  - Each token that is not the marker and whose date part parses as `DD/MM` becomes
    a one-day event. The event starts on that day, moved into the reference year,
    and ends on the following day.
  - The event's title is the name, followed by `" - "` and the time unless the time
    is `00:00`.
  - Ids are the position within the import, starting from 1.

The component also defines `parseDate`. It tries the moment formats `DD/MM`,
`DD/MM/YYYY`, `YYYY年MM月DD日` and `MM月DD日` in strict mode, in that order. The
first valid parse gives the date, with its year replaced by the reference year.

The modules:

- `Options`: the optional value used for a parse that fails.
- `Dates`: Gregorian dates and the month-length check that moment applies.
  - `NextDay` models `add(1, 'day')`. `WithYear` models moment's `year(y)` setter,
    which turns 29 February into 28 February in a common year.
  - `Ordinal` is a day numbering. It is the independent definition against which
    `NextDay` is proved to be exactly one day later.
- `JsStrings`: JavaScript `split` with a string separator, `trim` (the ECMAScript
  white-space set), and lower-casing for the comparison with `"n/a"`.
- `DateFormats`: strict format matching, `FirstStrictMatch` (the specification of
  `parseDate`) and the method `ParseDate`, which is the `for…of` loop with an early
  return.
- `RowImport`: the specification of one import (`ImportBatch`) and the imperative
  callback.
  - `CollectEvents` runs over the rows and calls `ImportRow` on each.
  - `ImportRow` skips the header and incomplete rows, and otherwise calls
    `ImportTokens`, which runs over the tokens and calls `ImportToken` on each.
  - Each of these methods is proved equal to the specification on the part of the
    input it has seen.
- `HolidayCalendarState`: the component's `events` state as a class.
  - `AddEvent` models `handleAddEvent`. `ImportRows` models the import's final
    `setEvents`.

Three behaviours of the code are easy to misread, and the model follows the code
in each:

1. **The import never calls `parseDate`.** The import calls
   `moment(date, 'DD/MM')` in lenient mode and then sets the reference year. Any
   year the lenient parse reads is therefore replaced: a token such as "01/01/2025",
   if the lenient parse accepts it, is imported in the reference year, not in 2025
   (`RowImport.TokenEntry` proves the year for every accepted token). `parseDate`
   also overwrites the year of every format, so "2024年12月23日" gives 23 December of
   the reference year (`DateFormats.AllFormatsRoundTrip`).
2. **A token without a time gets the title `"<name> - undefined"`.** The template
   literal renders the missing time that way; only `"00:00"` gives the bare name.
3. **Text after a second `" - "` is ignored.** A token with more than one separator
   is not rejected.

## Model

| member | source | states |
|---|---|---|
| Dates.WithYear | src/App.tsx:52 | moment's `year(y)` keeps month and day and sets the year; only 29 February in a common target year becomes 28 February |
| Dates.DaysInMonth | src/App.tsx:50-51 | every month has between 28 and 31 days |
| Dates.NextDay | src/App.tsx:79 | `add(1, 'day')` gives a date strictly later in calendar order |
| Dates.NextDayIsOneDayLater | src/App.tsx:79 | the day after a date is later in calendar order and its day number is exactly one more |
| Dates.NextDayIsSuccessor | src/App.tsx:79 | no calendar date lies strictly between a date and the day after it |
| Dates.OrdinalFollowsCalendarOrder | src/App.tsx:79 | the day numbering increases along calendar order, across months and years |
| Dates.OrdinalInjective | src/App.tsx:79 | two dates with the same day number are the same date |
| JsStrings.Split | src/App.tsx:70 | `split` always yields at least one piece |
| JsStrings.JoinSplit | src/App.tsx:70 | joining the pieces with the separator gives back the original string |
| JsStrings.SplitPartsOmitSeparator | src/App.tsx:70 | no piece contains the separator |
| JsStrings.SplitCountsSeparator | src/App.tsx:70 | there is exactly one piece if and only if the separator does not occur |
| JsStrings.SplitAtFirst | src/App.tsx:67 | the first piece ends at the leftmost occurrence of the separator and splitting goes on after that occurrence |
| JsStrings.SplitWithoutSeparator | src/App.tsx:67 | a string without the separator splits into itself alone |
| JsStrings.FirstPartIsPrefix | src/App.tsx:70 | the first piece is a prefix of the string |
| JsStrings.IsWhiteSpace | src/App.tsx:67 | the code points `trim` removes: the ECMAScript WhiteSpace and LineTerminator sets (tab, vertical tab, form feed, space, no-break space, byte order mark, the Zs separators, line feed, carriage return, line and paragraph separators) |
| JsStrings.TrimStart | src/App.tsx:67 | the result is a suffix; what was removed is all white space; the result does not start with white space |
| JsStrings.TrimEnd | src/App.tsx:67 | the result is a prefix; what was removed is all white space; the result does not end with white space |
| JsStrings.Trim | src/App.tsx:67 | `trim` never lengthens the string, and the result neither starts nor ends with white space |
| JsStrings.TrimIsInfix | src/App.tsx:67 | the trimmed string is an infix of the original with only white space before and after it |
| JsStrings.TrimKeepsTrimmed | src/App.tsx:67 | trimming a string without white space at either end leaves it unchanged |
| JsStrings.TrimSkipsLeadingSpace | src/App.tsx:67 | leading white space does not affect the trimmed result |
| JsStrings.ToLower | src/App.tsx:69 | lower-casing keeps the length and lower-cases each character in place |
| DateFormats.PaddedDigitsValue | src/App.tsx:50 | a number below 10^width, written with `width` zero-padded digits, reads back as itself |
| DateFormats.FirstStrictMatch | src/App.tsx:49-55 | there is no date exactly when every format fails; otherwise the date comes from the first format that matches, with the year set to the reference year |
| DateFormats.ParseDate | src/App.tsx:42-56 | the `for…of` search with early return computes `FirstStrictMatch` over the four formats in source order |
| DateFormats.MatchPieces | src/App.tsx:50 | a strict match consumes the whole token, which is exactly the format's width (2 digits for DD and MM, 4 for YYYY, one character per literal); a format without YYYY reads no year |
| DateFormats.MatchPiecesStrict | src/App.tsx:50 | strict matching accepts a token if and only if it conforms to the format position by position: exactly as long as the format, an ASCII digit at every position of DD, MM and YYYY, and the literal character at every literal position |
| DateFormats.StrictParse | src/App.tsx:50-51 | a valid strict parse comes only from a token that conforms to the format position by position; it has exactly the format's width; a format without a year takes the clock's year |
| DateFormats.FormatWidths | src/App.tsx:43-48 | the four formats take 5, 10, 11 and 6 characters |
| DateFormats.OnlyOwnWidthMatches | src/App.tsx:43-48 | a token as wide as one format matches none of the other three |
| DateFormats.SingleCandidate | src/App.tsx:49-55 | when only one format can match, the search returns that format's result with the reference year, or no date |
| DateFormats.FormatsAreExclusive | src/App.tsx:43-48 | no token strictly matches two of the four formats, so "23/12" never matches `DD/MM/YYYY` |
| DateFormats.MatchRender | src/App.tsx:50 | a date written in a format matches that format strictly and reads back its fields |
| DateFormats.StoreAllReads | src/App.tsx:50 | reading a written date stores exactly the fields its format names: year, month and day each when present, nothing else |
| DateFormats.RenderStrictParse | src/App.tsx:50-51 | a date written in a format that names day and month parses back strictly to that date, with the clock's year when the format has no year, exactly when that date exists |
| DateFormats.AllFormatsRoundTrip | src/App.tsx:42-56 | for each of the four formats and every date whose fields fit its digits: the written token gives no date if the named date (clock's year for a year-less format) does not exist, and otherwise that date moved to the reference year by moment's `year(y)` setter, so a written year is checked and then discarded |
| DateFormats.KanjiMonthDayExample | src/App.tsx:47-52 | "12月23日" with reference year 2025 gives 23 December 2025, whatever the clock's year |
| DateFormats.LeapDayDependsOnClockYear | src/App.tsx:50-52 | for all years: "29/02" is refused whenever the clock year is a common year, and becomes 28 February of the reference year when the clock year is a leap year and the reference year is not |
| RowImport.DateTokens | src/App.tsx:67 | there is one token per comma-separated piece |
| RowImport.DateTokensAt | src/App.tsx:67 | the token at each position is the comma-separated piece at that position, trimmed |
| JsStrings.MapEach | src/App.tsx:67 | `map` keeps the number of elements |
| JsStrings.MapEachAt | src/App.tsx:67 | `map` applies the function to the element at each position |
| RowImport.Title | src/App.tsx:74 | the title always starts with the name |
| RowImport.TitleOmitsOnlyMidnight | src/App.tsx:74 | the title is the bare name if and only if the time part is "00:00" |
| RowImport.IsNoDate | src/App.tsx:69 | the marker is exactly one of "n/a", "N/a", "n/A" and "N/A" |
| RowImport.NoDateIsLowerCaseNA | src/App.tsx:69 | the marker test holds if and only if the lower-cased token equals "n/a" |
| RowImport.DatePart | src/App.tsx:70 | the date part is a prefix of the token and contains no " - "; without a " - " it is the whole token |
| RowImport.TimePart | src/App.tsx:70 | the time is missing if and only if the token contains no " - "; a present time contains no " - " |
| RowImport.DateTimeSplit | src/App.tsx:70 | when a time is present the token starts with date, " - ", time, and anything after is a further " - " piece |
| RowImport.TokenEntry | src/App.tsx:69-81 | a token gives nothing if and only if it is the marker or its date part does not parse; otherwise its day is in the reference year and its title starts with the name |
| RowImport.TokenEntries | src/App.tsx:68-83 | a row gives at most one event per token |
| RowImport.TokenEntriesShape | src/App.tsx:71-74 | every event of a row is in the reference year and its title starts with the row's name |
| RowImport.TokenEntriesAppend | src/App.tsx:68 | the tokens are processed independently and in order |
| RowImport.SkippedTokenContributesNothing | src/App.tsx:69-73 | an "n/a" token, or one whose date part does not parse, adds nothing and does not disturb the other tokens |
| RowImport.SkipsRow | src/App.tsx:65 | the header row is always skipped; a row that is not skipped has a non-empty name and a non-empty date list |
| RowImport.RowEntries | src/App.tsx:65-83 | a skipped row (the header, or one missing a name or a date list) gives nothing; any other row gives at most one event per comma-separated piece |
| RowImport.BatchEntries | src/App.tsx:64-84 | the entries of all rows in file order, each row at its own index; its properties are stated by BatchEntriesInRefYear and HeaderRowIgnored |
| RowImport.HeaderRowIgnored | src/App.tsx:65 | the content of the first row never affects the import |
| RowImport.BatchEntriesInRefYear | src/App.tsx:64-84 | every imported event is in the reference year |
| RowImport.Numbered | src/App.tsx:75-76 | numbering keeps one event per entry |
| RowImport.NumberedAppend | src/App.tsx:75-76 | pushing one more entry gives it the next id, after the events already numbered |
| RowImport.MakeEvent | src/App.tsx:75-80 | an event ends after it starts, exactly one day later by the day numbering |
| RowImport.ImportBatch | src/App.tsx:63-84 | one event per entry; a file holding only the header imports nothing |
| RowImport.NumberedAt | src/App.tsx:76 | the event at position i has id i + 1 and the content of the i-th entry |
| RowImport.ImportToken | src/App.tsx:69-82 | one pass of the inner `forEach` extends the numbered list with exactly the token's entry, or with nothing |
| RowImport.ImportTokens | src/App.tsx:68-83 | the inner `forEach` extends the numbered list with exactly the row's entries, in token order |
| RowImport.ImportRow | src/App.tsx:64-84 | one pass of the outer `forEach` adds nothing for a skipped row and otherwise extends the numbered list with exactly the row's entries |
| RowImport.CollectEvents | src/App.tsx:63-84 | the nested loops build exactly `ImportBatch`, the numbered entries of all rows in file order |
| RowImport.ImportedEventsShape | src/App.tsx:75-80 | imported ids run 1, 2, …, n; every start is in the reference year; every end is exactly one calendar day after its start |
| HolidayCalendarState.HolidayCalendar.constructor | src/App.tsx:18 | the calendar starts with no events |
| HolidayCalendarState.HolidayCalendar.AddEvent | src/App.tsx:24-32 | appends one event with id count + 1, the form's name and the converted dates, leaving the earlier events as they were; keeps ids equal to positions + 1 |
| HolidayCalendarState.HolidayCalendar.ImportRows | src/App.tsx:85 | appends the whole imported batch after the existing events, unchanged |
| HolidayCalendarState.ImportIdsRestartAtOne | src/App.tsx:76-85 | an import into a calendar whose first event has id 1 repeats id 1 |
| HolidayCalendarState.ImportIntoEmptyIsNumbered | src/App.tsx:76-85 | an import into an empty calendar leaves ids equal to positions + 1 |

## Left out

- The component's rendering (JSX, the `react-big-calendar` view and the form
  inputs) is not part of this model.
- The upload event and `Papa.parse` are not modelled: the rows arrive already
  parsed, as a sequence of rows of strings.
- Saving to and restoring from `localStorage` (the two effects) is not modelled;
  it is storage I/O.
- `handleNavigate` is not modelled. The year of the displayed date,
  `currentDate.getFullYear()`, is the parameter `refYear`.
- RowImport.TokenEntry: the lenient `moment(date, 'DD/MM')` at line 71 is library
  code and is left abstract as the parameter `lenient`; a failed parse is `None`.
  The model therefore does not say which date parts line 71 accepts or what day it
  reads from them. In particular it does not prove that moment ignores trailing
  text such as the "/2025" of "01/01/2025", nor that it accepts one-digit days or
  months.
- DateFormats.StrictParse: moment fills a missing year from the clock. The clock
  year is the parameter `clockYear`, and the clock's month and day never matter
  because every format names both.
- HolidayCalendarState.HolidayCalendar.AddEvent: `new Date(text)` is the parameter
  `toDate`. The form's controlled inputs and their clearing after submission are UI
  state and are not modelled.
- JsStrings.ToLower: only ASCII letters are lower-cased. For the comparison with
  "n/a" this agrees with JavaScript, because no other code point lower-cases to
  'n', '/' or 'a'. Full Unicode case mapping is not modelled.
- Dates: events carry calendar days only. The time of day (local midnight), time
  zones, the `Date` range limit and the invalid `Date` that `toDate` may produce
  are not modelled.
- DateFormats.ParseDate returns the calendar day of moment's result; the
  conversion with `toDate()` is the identity on days here.
