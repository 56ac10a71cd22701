/** The calendar component's event list and the two handlers that append to it:
    the form submission and the completion of a spreadsheet import. */
module HolidayCalendarState {
  import opened Options
  import opened Dates
  import opened RowImport

  class HolidayCalendar {
    /** The `events` state, in insertion order. */
    var events: seq<Event>

    /** The component starts with no events. */
    constructor ()
      ensures events == []
    {
      events := [];
    }

    /** `handleAddEvent`: appends one event titled with the form's name, numbered
        one more than the current count; `toDate` is the conversion of the form's
        date text to a day. */
    method AddEvent(name: string, startText: string, endText: string, toDate: string -> CalendarDate)
      modifies this
      ensures events == old(events) + [Event(|old(events)| + 1, name, toDate(startText), toDate(endText))]
      ensures NumberedFromOne(old(events)) ==> NumberedFromOne(events)
    {
      var newEvent := Event(|events| + 1, name, toDate(startText), toDate(endText));
      events := events + [newEvent];
    }

    /** The import's `complete` callback: the events gathered from the rows are
        appended after the existing ones, all at once. */
    method ImportRows(rows: seq<Row>, refYear: int, lenient: string -> Option<CalendarDate>)
      modifies this
      ensures events == old(events) + ImportBatch(rows, refYear, lenient)
    {
      var newEvents := CollectEvents(rows, refYear, lenient);
      events := events + newEvents;
    }
  }

  /** An import numbers its events from 1 whatever the calendar already holds, so
      after any earlier event with id 1 the first imported event repeats that id. */
  lemma ImportIdsRestartAtOne(existing: seq<Event>, rows: seq<Row>, refYear: int,
                              lenient: string -> Option<CalendarDate>)
    requires |existing| >= 1 && existing[0].id == 1
    requires |ImportBatch(rows, refYear, lenient)| >= 1
    ensures var all := existing + ImportBatch(rows, refYear, lenient);
            all[0].id == all[|existing|].id
  {
    ImportedEventsShape(rows, refYear, lenient);
  }

  /** Ids equal positions plus one: no two events share an id. */
  predicate NumberedFromOne(events: seq<Event>)
  {
    forall i :: 0 <= i < |events| ==> events[i].id == i + 1
  }

  /** Into an empty calendar an import numbers without gaps; into a non-empty
      one it does not (ImportIdsRestartAtOne). */
  lemma ImportIntoEmptyIsNumbered(rows: seq<Row>, refYear: int, lenient: string -> Option<CalendarDate>)
    ensures NumberedFromOne([] + ImportBatch(rows, refYear, lenient))
  {
    ImportedEventsShape(rows, refYear, lenient);
    assert [] + ImportBatch(rows, refYear, lenient) == ImportBatch(rows, refYear, lenient);
  }
}
