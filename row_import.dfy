/** The spreadsheet import: each row after the header gives a name (field 0) and a
    comma-separated list of date tokens (field 1); every token that is not the
    "n/a" marker and whose date part parses becomes a one-day event. */
module RowImport {
  import opened Options
  import opened Dates
  import opened JsStrings

  /** One row of the parsed file, its fields in column order. */
  type Row = seq<string>

  datatype Event = Event(id: int, title: string, start: CalendarDate, end: CalendarDate)

  /** An event before it is numbered: its title and its day. */
  datatype Entry = Entry(title: string, start: CalendarDate)

  const TimeSeparator: string := " - "
  const Midnight: string := "00:00"

  /** A field of the row; a missing field reads as empty (both are falsy). */
  function Field(row: Row, k: nat): string
  {
    if k < |row| then row[k] else ""
  }

  /** The header row and rows without a name or without dates are skipped. */
  predicate SkipsRow(row: Row, index: nat)
    ensures index == 0 ==> SkipsRow(row, index)
    ensures !SkipsRow(row, index) ==> 2 <= |row| && row[0] != "" && row[1] != ""
  {
    index == 0 || Field(row, 0) == "" || Field(row, 1) == ""
  }

  /** `row[1].split(',').map(date => date.trim())` */
  function DateTokens(field: string): (tokens: seq<string>)
    ensures |tokens| == |Split(field, ",")|
  {
    MapEach(Trim, Split(field, ","))
  }

  /** Each date token is the comma-separated piece at its position, trimmed. */
  lemma DateTokensAt(field: string, i: int)
    requires 0 <= i < |Split(field, ",")|
    ensures DateTokens(field)[i] == Trim(Split(field, ",")[i])
  {
    MapEachAt(Trim, Split(field, ","), i);
  }

  /** `dateString.toLowerCase() === 'n/a'`, compared character by character
      (NoDateIsLowerCaseNA shows it is that comparison): "n/a" in any letter case,
      and nothing else. */
  predicate IsNoDate(token: string)
    ensures IsNoDate(token) <==> token in {"n/a", "N/a", "n/A", "N/A"}
  {
    assert |token| == 3 ==> token == [token[0], token[1], token[2]];
    |token| == 3 && ToLowerAscii(token[0]) == 'n' && ToLowerAscii(token[1]) == '/'
    && ToLowerAscii(token[2]) == 'a'
  }

  /** `const [date, time] = dateString.split(' - ')`: the first piece ... */
  function DatePart(token: string): (date: string)
    ensures |date| <= |token| && date == token[..|date|]
    ensures !Contains(date, TimeSeparator)
    ensures !Contains(token, TimeSeparator) ==> date == token
  {
    FirstPartIsPrefix(token, TimeSeparator);
    SplitPartsOmitSeparator(token, TimeSeparator);
    SplitCountsSeparator(token, TimeSeparator);
    JoinSplit(token, TimeSeparator);
    Split(token, TimeSeparator)[0]
  }

  /** ... and the second, undefined when there is no separator. */
  function TimePart(token: string): (time: Option<string>)
    ensures time.None? <==> !Contains(token, TimeSeparator)
    ensures time.Some? ==> !Contains(time.value, TimeSeparator)
  {
    SplitCountsSeparator(token, TimeSeparator);
    SplitPartsOmitSeparator(token, TimeSeparator);
    var parts := Split(token, TimeSeparator);
    if |parts| >= 2 then Some(parts[1]) else None
  }

  /** `time === '00:00' ? name : `${name} - ${time}``; an undefined time is
      rendered by the template as "undefined". */
  function Title(name: string, time: Option<string>): (title: string)
    ensures |name| <= |title| && title[..|name|] == name
  {
    if time == Some(Midnight) then name
    else name + TimeSeparator + (if time.Some? then time.value else "undefined")
  }

  /** What one token contributes: nothing for the "n/a" marker or a date part the
      lenient 'DD/MM' parse refuses, otherwise a titled entry on the parsed day moved
      to the reference year. */
  function TokenEntry(name: string, token: string, refYear: int,
                      lenient: string -> Option<CalendarDate>): (entry: Option<Entry>)
    ensures entry.None? <==> IsNoDate(token) || lenient(DatePart(token)).None?
    ensures entry.Some? ==> entry.value.start.year == refYear
    ensures entry.Some? ==> |name| <= |entry.value.title| && entry.value.title[..|name|] == name
  {
    if IsNoDate(token) then None
    else match lenient(DatePart(token))
      case None => None
      case Some(d) => Some(Entry(Title(name, TimePart(token)), WithYear(d, refYear)))
  }

  function AsSeq(o: Option<Entry>): seq<Entry>
  {
    if o.Some? then [o.value] else []
  }

  /** The entries of a row's tokens, in token order. */
  function TokenEntries(name: string, tokens: seq<string>, refYear: int,
                        lenient: string -> Option<CalendarDate>): (entries: seq<Entry>)
    ensures |entries| <= |tokens|
    decreases |tokens|
  {
    if tokens == [] then []
    else
      TokenEntries(name, tokens[..|tokens| - 1], refYear, lenient)
      + AsSeq(TokenEntry(name, tokens[|tokens| - 1], refYear, lenient))
  }

  lemma TokenEntriesStep(done: seq<Entry>, name: string, tokens: seq<string>, j: int, refYear: int,
                         lenient: string -> Option<CalendarDate>)
    requires 0 <= j < |tokens|
    ensures done + TokenEntries(name, tokens[..j + 1], refYear, lenient)
            == (done + TokenEntries(name, tokens[..j], refYear, lenient))
               + AsSeq(TokenEntry(name, tokens[j], refYear, lenient))
  {
    assert tokens[..j + 1][..j] == tokens[..j];
    assert tokens[..j + 1][j] == tokens[j];
  }

  /** The entries one row contributes; `index` is its position in the file. */
  function RowEntries(row: Row, index: nat, refYear: int,
                      lenient: string -> Option<CalendarDate>): (entries: seq<Entry>)
    ensures |entries| <= |Split(Field(row, 1), ",")|
    ensures SkipsRow(row, index) ==> entries == []
  {
    if SkipsRow(row, index) then []
    else TokenEntries(Field(row, 0), DateTokens(Field(row, 1)), refYear, lenient)
  }

  /** The entries of all rows, in file order. */
  function BatchEntries(rows: seq<Row>, refYear: int,
                        lenient: string -> Option<CalendarDate>): (entries: seq<Entry>)
    decreases |rows|
  {
    if rows == [] then []
    else BatchEntries(rows[..|rows| - 1], refYear, lenient)
         + RowEntries(rows[|rows| - 1], |rows| - 1, refYear, lenient)
  }

  /** The event for an entry: a one-day event ending on the following day. */
  function MakeEvent(id: int, e: Entry): (event: Event)
    ensures Before(event.start, event.end) && Ordinal(event.end) == Ordinal(event.start) + 1
  {
    NextDayIsOneDayLater(e.start);
    Event(id, e.title, e.start, NextDay(e.start))
  }

  /** Numbers the entries 1, 2, ... in order, as pushing them one by one does. */
  function Numbered(entries: seq<Entry>): (events: seq<Event>)
    ensures |events| == |entries|
    decreases |entries|
  {
    if entries == [] then []
    else Numbered(entries[..|entries| - 1]) + [MakeEvent(|entries|, entries[|entries| - 1])]
  }

  /** The events one import produces. */
  function ImportBatch(rows: seq<Row>, refYear: int, lenient: string -> Option<CalendarDate>): (events: seq<Event>)
    ensures |events| == |BatchEntries(rows, refYear, lenient)|
    ensures |rows| <= 1 ==> events == []
  {
    Numbered(BatchEntries(rows, refYear, lenient))
  }

  lemma NumberedAppend(entries: seq<Entry>, e: Entry)
    ensures Numbered(entries + [e]) == Numbered(entries) + [MakeEvent(|entries| + 1, e)]
  {
    assert (entries + [e])[..|entries|] == entries;
  }

  /** Ids follow positions: the i-th event carries id i + 1. */
  lemma {:induction false} NumberedAt(entries: seq<Entry>, i: int)
    requires 0 <= i < |entries|
    ensures Numbered(entries)[i] == MakeEvent(i + 1, entries[i])
    decreases |entries|
  {
    if i < |entries| - 1 {
      var front := entries[..|entries| - 1];
      NumberedAt(front, i);
    }
  }

  /** One pass of the inner `forEach`: a token that is not the "n/a" marker and whose
      date part parses is pushed with the next id and the day after as its end. */
  method ImportToken(newEvents: seq<Event>, ghost done: seq<Entry>, name: string, dateString: string,
                     refYear: int, lenient: string -> Option<CalendarDate>)
    returns (pushed: seq<Event>)
    requires newEvents == Numbered(done)
    ensures pushed == Numbered(done + AsSeq(TokenEntry(name, dateString, refYear, lenient)))
  {
    pushed := newEvents;
    ghost var entry := TokenEntry(name, dateString, refYear, lenient);
    if !IsNoDate(dateString) {
      var date, time := DatePart(dateString), TimePart(dateString);
      var parsedDate := lenient(date);
      if parsedDate.Some? {
        var start := WithYear(parsedDate.value, refYear);
        var title := Title(name, time);
        assert entry == Some(Entry(title, start));
        assert AsSeq(entry) == [Entry(title, start)];
        NumberedAppend(done, Entry(title, start));
        assert |pushed| == |done|;
        pushed := pushed + [Event(|pushed| + 1, title, start, NextDay(start))];
      } else {
        assert entry == None;
        assert done + AsSeq(entry) == done;
      }
    } else {
      assert entry == None;
      assert done + AsSeq(entry) == done;
    }
  }

  /** The inner `forEach` over one row's tokens. */
  method ImportTokens(newEvents: seq<Event>, ghost done: seq<Entry>, name: string, dates: seq<string>,
                      refYear: int, lenient: string -> Option<CalendarDate>)
    returns (pushed: seq<Event>)
    requires newEvents == Numbered(done)
    ensures pushed == Numbered(done + TokenEntries(name, dates, refYear, lenient))
  {
    pushed := newEvents;
    assert done + TokenEntries(name, dates[..0], refYear, lenient) == done;
    var j := 0;
    while j < |dates|
      invariant 0 <= j <= |dates|
      invariant pushed == Numbered(done + TokenEntries(name, dates[..j], refYear, lenient))
    {
      TokenEntriesStep(done, name, dates, j, refYear, lenient);
      pushed := ImportToken(pushed, done + TokenEntries(name, dates[..j], refYear, lenient),
                            name, dates[j], refYear, lenient);
      j := j + 1;
    }
    assert dates[..|dates|] == dates;
  }

  /** One pass of the outer `forEach`: the header row and rows missing a name or a
      date list are skipped; otherwise each comma-separated token is imported in order. */
  method ImportRow(newEvents: seq<Event>, ghost done: seq<Entry>, row: Row, index: nat,
                   refYear: int, lenient: string -> Option<CalendarDate>)
    returns (pushed: seq<Event>)
    requires newEvents == Numbered(done)
    ensures pushed == Numbered(done + RowEntries(row, index, refYear, lenient))
  {
    if SkipsRow(row, index) {
      assert done + [] == done;
      return newEvents;
    }
    var name := row[0];
    var dates := DateTokens(row[1]);
    pushed := ImportTokens(newEvents, done, name, dates, refYear, lenient);
  }

  /** The `complete` callback's loops: `newEvents` grows one push at a time, each
      id taken from its current length. */
  method CollectEvents(rows: seq<Row>, refYear: int, lenient: string -> Option<CalendarDate>)
    returns (newEvents: seq<Event>)
    ensures newEvents == ImportBatch(rows, refYear, lenient)
  {
    newEvents := [];
    var index := 0;
    while index < |rows|
      invariant 0 <= index <= |rows|
      invariant newEvents == Numbered(BatchEntries(rows[..index], refYear, lenient))
    {
      BatchEntriesPrefixStep(rows, index, refYear, lenient);
      newEvents := ImportRow(newEvents, BatchEntries(rows[..index], refYear, lenient), rows[index], index,
                             refYear, lenient);
      index := index + 1;
    }
    assert rows[..|rows|] == rows;
  }

  // ---------------------------------------------------------------------------
  // Properties

  /** Every entry of a row lies in the reference year and its title starts with
      the row's name. */
  lemma {:induction false} TokenEntriesShape(name: string, tokens: seq<string>, refYear: int,
                                             lenient: string -> Option<CalendarDate>)
    ensures forall e :: e in TokenEntries(name, tokens, refYear, lenient) ==>
              e.start.year == refYear && |name| <= |e.title| && e.title[..|name|] == name
    decreases |tokens|
  {
    if tokens != [] {
      TokenEntriesShape(name, tokens[..|tokens| - 1], refYear, lenient);
    }
  }

  /** Every entry of an import lies in the reference year. */
  lemma {:induction false} BatchEntriesInRefYear(rows: seq<Row>, refYear: int,
                                                 lenient: string -> Option<CalendarDate>)
    ensures forall e :: e in BatchEntries(rows, refYear, lenient) ==> e.start.year == refYear
    decreases |rows|
  {
    if rows != [] {
      var last := rows[|rows| - 1];
      BatchEntriesInRefYear(rows[..|rows| - 1], refYear, lenient);
      if !SkipsRow(last, |rows| - 1) {
        TokenEntriesShape(Field(last, 0), DateTokens(Field(last, 1)), refYear, lenient);
      }
    }
  }

  /** Imported ids run 1, 2, ..., n in push order; every event lies in the
      reference year and ends exactly one calendar day after it starts. */
  lemma ImportedEventsShape(rows: seq<Row>, refYear: int, lenient: string -> Option<CalendarDate>)
    ensures forall i :: 0 <= i < |ImportBatch(rows, refYear, lenient)| ==>
      var e := ImportBatch(rows, refYear, lenient)[i];
      e.id == i + 1 && e.start.year == refYear && Ordinal(e.end) == Ordinal(e.start) + 1
  {
    var entries := BatchEntries(rows, refYear, lenient);
    BatchEntriesInRefYear(rows, refYear, lenient);
    forall i | 0 <= i < |entries|
      ensures var e := ImportBatch(rows, refYear, lenient)[i];
              e.id == i + 1 && e.start.year == refYear && Ordinal(e.end) == Ordinal(e.start) + 1
    {
      assert entries[i] in entries;
      NumberedAt(entries, i);
      NextDayIsOneDayLater(entries[i].start);
    }
  }

  /** Splitting the token list keeps the entries in token order. */
  lemma {:induction false} TokenEntriesAppend(name: string, a: seq<string>, b: seq<string>, refYear: int,
                                              lenient: string -> Option<CalendarDate>)
    ensures TokenEntries(name, a + b, refYear, lenient)
            == TokenEntries(name, a, refYear, lenient) + TokenEntries(name, b, refYear, lenient)
    decreases |b|
  {
    if b == [] {
      assert a + b == a;
    } else {
      var front, last := b[..|b| - 1], b[|b| - 1];
      assert b == front + [last];
      assert a + b == (a + front) + [last];
      TokenEntriesSnoc(name, a + front, last, refYear, lenient);
      TokenEntriesSnoc(name, front, last, refYear, lenient);
      TokenEntriesAppend(name, a, front, refYear, lenient);
    }
  }

  lemma TokenEntriesSnoc(name: string, tokens: seq<string>, t: string, refYear: int,
                         lenient: string -> Option<CalendarDate>)
    ensures TokenEntries(name, tokens + [t], refYear, lenient)
            == TokenEntries(name, tokens, refYear, lenient) + AsSeq(TokenEntry(name, t, refYear, lenient))
  {
    assert (tokens + [t])[..|tokens|] == tokens;
  }

  /** A token that is the "n/a" marker, or whose date part does not parse, adds
      nothing and leaves the other tokens' entries as they are. */
  lemma SkippedTokenContributesNothing(name: string, a: seq<string>, t: string, b: seq<string>,
                                       refYear: int, lenient: string -> Option<CalendarDate>)
    requires IsNoDate(t) || lenient(DatePart(t)).None?
    ensures TokenEntries(name, a + [t] + b, refYear, lenient) == TokenEntries(name, a + b, refYear, lenient)
  {
    SingleTokenEntries(name, t, refYear, lenient);
    TokenEntriesAppend(name, a + [t], b, refYear, lenient);
    TokenEntriesAppend(name, a, [t], refYear, lenient);
    TokenEntriesAppend(name, a, b, refYear, lenient);
    assert TokenEntries(name, a + [t], refYear, lenient) == TokenEntries(name, a, refYear, lenient);
  }

  lemma SingleTokenEntries(name: string, t: string, refYear: int, lenient: string -> Option<CalendarDate>)
    ensures TokenEntries(name, [t], refYear, lenient) == AsSeq(TokenEntry(name, t, refYear, lenient))
  {
    assert [t][..0] == [];
  }

  /** The marker test is the lower-cased comparison with "n/a". */
  lemma NoDateIsLowerCaseNA(t: string)
    ensures IsNoDate(t) <==> ToLower(t) == "n/a"
  {
    if IsNoDate(t) {
      assert ToLower(t) == [ToLower(t)[0], ToLower(t)[1], ToLower(t)[2]];
    }
  }

  /** The header row's contents never matter. */
  lemma {:induction false} HeaderRowIgnored(header: Row, other: Row, rest: seq<Row>, refYear: int,
                                            lenient: string -> Option<CalendarDate>)
    ensures BatchEntries([header] + rest, refYear, lenient) == BatchEntries([other] + rest, refYear, lenient)
    decreases |rest|
  {
    if rest == [] {
      BatchEntriesSnoc([], header, refYear, lenient);
      BatchEntriesSnoc([], other, refYear, lenient);
      assert [] + [header] == [header] + rest && [] + [other] == [other] + rest;
    } else {
      var front, last := rest[..|rest| - 1], rest[|rest| - 1];
      assert [header] + rest == ([header] + front) + [last];
      assert [other] + rest == ([other] + front) + [last];
      BatchEntriesSnoc([header] + front, last, refYear, lenient);
      BatchEntriesSnoc([other] + front, last, refYear, lenient);
      HeaderRowIgnored(header, other, front, refYear, lenient);
    }
  }

  lemma BatchEntriesPrefixStep(rows: seq<Row>, k: int, refYear: int, lenient: string -> Option<CalendarDate>)
    requires 0 <= k < |rows|
    ensures BatchEntries(rows[..k + 1], refYear, lenient)
            == BatchEntries(rows[..k], refYear, lenient) + RowEntries(rows[k], k, refYear, lenient)
  {
    assert rows[..k + 1][..k] == rows[..k];
  }

  lemma BatchEntriesSnoc(rows: seq<Row>, last: Row, refYear: int, lenient: string -> Option<CalendarDate>)
    ensures BatchEntries(rows + [last], refYear, lenient)
            == BatchEntries(rows, refYear, lenient) + RowEntries(last, |rows|, refYear, lenient)
  {
    assert (rows + [last])[..|rows|] == rows;
  }

  /** Only the text before the first " - " is the date part, and only the text up
      to a second " - " is the time part; anything after is ignored. */
  lemma DateTimeSplit(token: string)
    ensures TimePart(token).Some? ==>
      var date, time := DatePart(token), TimePart(token).value;
      var n := |date| + |TimeSeparator| + |time|;
      && !Contains(time, TimeSeparator)
      && n <= |token| && token[..n] == date + TimeSeparator + time
      && (n == |token| || OccursAt(token[n..], TimeSeparator, 0))
  {
    var parts := Split(token, TimeSeparator);
    JoinSplit(token, TimeSeparator);
    SplitPartsOmitSeparator(token, TimeSeparator);
    SplitCountsSeparator(token, TimeSeparator);
    if |parts| >= 2 {
      var date, time := parts[0], parts[1];
      var n := |date| + |TimeSeparator| + |time|;
      if |parts| == 2 {
        assert parts[1..] == [time];
        assert token == date + TimeSeparator + time;
        assert token[..n] == token;
      } else {
        var rest := Join(parts[2..], TimeSeparator);
        assert parts[1..][1..] == parts[2..];
        assert token == date + TimeSeparator + (time + TimeSeparator + rest);
        assert token == (date + TimeSeparator + time) + (TimeSeparator + rest);
        assert token[n..] == TimeSeparator + rest;
        assert token[..n] == date + TimeSeparator + time;
      }
    }
  }

  /** The title is the bare name exactly when the time part is "00:00". */
  lemma TitleOmitsOnlyMidnight(name: string, time: Option<string>)
    ensures Title(name, time) == name <==> time == Some(Midnight)
  {
    if time != Some(Midnight) {
      assert |Title(name, time)| > |name|;
    }
  }
}
