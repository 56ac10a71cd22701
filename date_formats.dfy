/** `parseDate`: a token is tried against a fixed, ordered list of moment format
    strings in strict mode; the first format the token matches exactly gives the
    date, whose year is then replaced by the reference year. */
module DateFormats {
  import opened Options
  import opened Dates

  /** The pieces of a moment format string: the numeric tokens `DD`, `MM`, `YYYY`
      and literal characters such as '/', '年', '月', '日'. */
  datatype Piece = Day | Month | Year | Glyph(c: char)

  /** In strict mode `DD` and `MM` take exactly two digits and `YYYY` exactly four. */
  function Width(p: Piece): nat
  {
    match p
    case Year => 4
    case Glyph(_) => 1
    case _ => 2
  }

  function TotalWidth(format: seq<Piece>): nat
  {
    if format == [] then 0 else Width(format[0]) + TotalWidth(format[1..])
  }

  const DayMonth: seq<Piece> := [Day, Glyph('/'), Month]                                    // 'DD/MM'
  const DayMonthYear: seq<Piece> := [Day, Glyph('/'), Month, Glyph('/'), Year]              // 'DD/MM/YYYY'
  const KanjiYearMonthDay: seq<Piece> := [Year, Glyph('年'), Month, Glyph('月'), Day, Glyph('日')] // 'YYYY年MM月DD日'
  const KanjiMonthDay: seq<Piece> := [Month, Glyph('月'), Day, Glyph('日')]                 // 'MM月DD日'

  /** The formats in the order they are tried. */
  const Formats: seq<seq<Piece>> := [DayMonth, DayMonthYear, KanjiYearMonthDay, KanjiMonthDay]

  // ---------------------------------------------------------------------------
  // Digits

  predicate IsDigit(c: char)
  {
    '0' <= c <= '9'
  }

  predicate AllDigits(s: string)
  {
    forall i :: 0 <= i < |s| ==> IsDigit(s[i])
  }

  /** The decimal value of a run of digits. */
  function DigitsValue(s: string): nat
    requires AllDigits(s)
    decreases |s|
  {
    if s == [] then 0 else DigitsValue(s[..|s| - 1]) * 10 + (s[|s| - 1] as int - '0' as int)
  }

  function Pow10(n: nat): nat
  {
    if n == 0 then 1 else 10 * Pow10(n - 1)
  }

  /** `n` written with exactly `width` digits, zero-padded (the last `width` digits). */
  function PaddedDigits(n: nat, width: nat): (s: string)
    ensures |s| == width && AllDigits(s)
  {
    if width == 0 then [] else PaddedDigits(n / 10, width - 1) + [('0' as int + n % 10) as char]
  }

  lemma {:induction false} PaddedDigitsValue(n: nat, width: nat)
    requires n < Pow10(width)
    ensures DigitsValue(PaddedDigits(n, width)) == n
  {
    if width > 0 {
      var front := PaddedDigits(n / 10, width - 1);
      var s := front + [('0' as int + n % 10) as char];
      assert s[..|s| - 1] == front;
      assert n / 10 < Pow10(width - 1);
      PaddedDigitsValue(n / 10, width - 1);
    }
  }

  // ---------------------------------------------------------------------------
  // Strict matching

  /** The numeric fields read so far. */
  datatype Fields = Fields(year: Option<int>, month: Option<int>, day: Option<int>)

  const NoFields := Fields(None, None, None)

  function Store(acc: Fields, p: Piece, v: int): Fields
  {
    match p
    case Day => acc.(day := Some(v))
    case Month => acc.(month := Some(v))
    case Year => acc.(year := Some(v))
    case Glyph(_) => acc
  }

  /** Strict matching of a whole token against a format: every piece must be met
      in turn, and nothing may be left over. */
  function MatchPieces(format: seq<Piece>, s: string, acc: Fields): (r: Option<Fields>)
    ensures r.Some? ==> |s| == TotalWidth(format)
    ensures r.Some? && Year !in format ==> r.value.year == acc.year
    decreases |format|
  {
    if format == [] then (if s == [] then Some(acc) else None)
    else
      var w := Width(format[0]);
      if |s| < w then None
      else match format[0]
        case Glyph(c) => if s[0] == c then MatchPieces(format[1..], s[1..], acc) else None
        case _ =>
          if AllDigits(s[..w]) then MatchPieces(format[1..], s[w..], Store(acc, format[0], DigitsValue(s[..w])))
          else None
  }

  /** What each character position of a format admits: any ASCII digit (None) or
      one literal character. */
  function Slots(format: seq<Piece>): (slots: seq<Option<char>>)
    ensures |slots| == TotalWidth(format)
    decreases |format|
  {
    if format == [] then [] else PieceSlots(format[0]) + Slots(format[1..])
  }

  function PieceSlots(p: Piece): (slots: seq<Option<char>>)
    ensures |slots| == Width(p)
  {
    match p
    case Glyph(c) => [Some(c)]
    case Year => [None, None, None, None]
    case _ => [None, None]
  }

  predicate SlotAdmits(slot: Option<char>, c: char)
  {
    match slot
    case None => IsDigit(c)
    case Some(g) => c == g
  }

  /** The token has the format's exact shape: one character per position, a digit
      where the format has a numeric field and the literal where it has one. */
  predicate Conforms(format: seq<Piece>, s: string)
  {
    |s| == |Slots(format)| && forall i :: 0 <= i < |s| ==> SlotAdmits(Slots(format)[i], s[i])
  }

  /** Strict matching accepts exactly the tokens that conform to the format. */
  lemma {:induction false} MatchPiecesStrict(format: seq<Piece>, s: string, acc: Fields)
    ensures MatchPieces(format, s, acc).Some? <==> Conforms(format, s)
    decreases |format|
  {
    if format != [] {
      var p, w := format[0], Width(format[0]);
      ConformsCons(format, s);
      if |s| >= w {
        match p
        case Glyph(c) =>
          MatchPiecesStrict(format[1..], s[1..], acc);
          assert PieceConforms(p, s[..w]) <==> s[0] == c;
        case _ =>
          MatchPiecesStrict(format[1..], s[w..], Store(acc, p, if AllDigits(s[..w]) then DigitsValue(s[..w]) else 0));
      }
    }
  }

  /** The first piece's characters conform to it. */
  predicate PieceConforms(p: Piece, t: string)
  {
    |t| == Width(p) && forall i :: 0 <= i < |t| ==> SlotAdmits(PieceSlots(p)[i], t[i])
  }

  lemma ConformsCons(format: seq<Piece>, s: string)
    requires format != []
    ensures Conforms(format, s) <==>
      |s| >= Width(format[0]) && PieceConforms(format[0], s[..Width(format[0])])
      && Conforms(format[1..], s[Width(format[0])..])
  {
    var w := Width(format[0]);
    var head, tail := PieceSlots(format[0]), Slots(format[1..]);
    assert Slots(format) == head + tail;
    if |s| == w + |tail| {
      forall i | 0 <= i < |s| - w ensures s[w..][i] == s[w + i] && (head + tail)[w + i] == tail[i] {
      }
      forall i | 0 <= i < w ensures s[..w][i] == s[i] && (head + tail)[i] == head[i] {
      }
      if PieceConforms(format[0], s[..w]) && Conforms(format[1..], s[w..]) {
        forall i | 0 <= i < |s| ensures SlotAdmits((head + tail)[i], s[i]) {
          if i >= w {
            assert SlotAdmits(tail[i - w], s[w..][i - w]);
          } else {
            assert SlotAdmits(head[i], s[..w][i]);
          }
        }
      }
    }
  }

  /** `moment(token, format, true)` when it is valid. A format without a year takes
      the clock's current year, and the day must exist in that year. Every listed
      format names a month and a day. */
  function StrictParse(token: string, format: seq<Piece>, clockYear: int): (r: Option<CalendarDate>)
    ensures r.Some? ==> |token| == TotalWidth(format)
    ensures r.Some? ==> Conforms(format, token)
    ensures r.Some? && Year !in format ==> r.value.year == clockYear
  {
    MatchPiecesStrict(format, token, NoFields);
    match MatchPieces(format, token, NoFields)
    case None => None
    case Some(f) =>
      if f.month.None? || f.day.None? then None
      else
        var d := Date(if f.year.Some? then f.year.value else clockYear, f.month.value, f.day.value);
        if ValidDate(d) then Some(d) else None
  }

  /** The first format of `formats` that the token strictly matches decides the
      date, with its year overwritten by `refYear`; no match gives None. */
  function FirstStrictMatch(token: string, formats: seq<seq<Piece>>, refYear: int, clockYear: int): (r: Option<CalendarDate>)
    ensures r.None? <==> forall k :: 0 <= k < |formats| ==> StrictParse(token, formats[k], clockYear).None?
    ensures r.Some? ==>
      exists k :: 0 <= k < |formats| && StrictParse(token, formats[k], clockYear).Some?
        && r.value == WithYear(StrictParse(token, formats[k], clockYear).value, refYear)
        && forall j :: 0 <= j < k ==> StrictParse(token, formats[j], clockYear).None?
    ensures r.Some? ==> r.value.year == refYear
    decreases |formats|
  {
    if formats == [] then None
    else match StrictParse(token, formats[0], clockYear)
      case Some(d) => Some(WithYear(d, refYear))
      case None =>
        var r := FirstStrictMatch(token, formats[1..], refYear, clockYear);
        assert forall k :: 1 <= k < |formats| ==> formats[k] == formats[1..][k - 1];
        r
  }

  /** `parseDate(dateString)`: the `for…of` search over the format list with an
      early return on the first valid strict parse. */
  method ParseDate(dateString: string, refYear: int, clockYear: int) returns (r: Option<CalendarDate>)
    ensures r == FirstStrictMatch(dateString, Formats, refYear, clockYear)
  {
    for i := 0 to |Formats|
      invariant FirstStrictMatch(dateString, Formats[i..], refYear, clockYear)
             == FirstStrictMatch(dateString, Formats, refYear, clockYear)
    {
      var date := StrictParse(dateString, Formats[i], clockYear);
      if date.Some? {
        return Some(WithYear(date.value, refYear));
      }
      assert Formats[i..][1..] == Formats[i + 1..];
    }
    return None;
  }

  // ---------------------------------------------------------------------------
  // Properties

  lemma FormatWidths()
    ensures TotalWidth(Formats[0]) == 5 && TotalWidth(Formats[1]) == 10
    ensures TotalWidth(Formats[2]) == 11 && TotalWidth(Formats[3]) == 6
  {
  }

  /** The four formats have different widths (5, 10, 11 and 6 characters), so a
      token strictly matches at most one of them and the priority order never
      decides between two candidates; in particular "23/12" never matches
      'DD/MM/YYYY'. */
  lemma FormatsAreExclusive(token: string, i: int, j: int, clockYear: int)
    requires 0 <= i < j < |Formats|
    ensures StrictParse(token, Formats[i], clockYear).None? || StrictParse(token, Formats[j], clockYear).None?
  {
    if StrictParse(token, Formats[i], clockYear).Some? {
      OnlyOwnWidthMatches(token, i, clockYear);
    }
  }

  /** Writes a date in a format: two digits for day and month, four for the year. */
  function Render(format: seq<Piece>, d: Date): string
    requires 0 <= d.year < 10000 && 0 <= d.month < 100 && 0 <= d.day < 100
  {
    if format == [] then []
    else
      var head := match format[0]
        case Glyph(c) => [c]
        case Day => PaddedDigits(d.day, 2)
        case Month => PaddedDigits(d.month, 2)
        case Year => PaddedDigits(d.year, 4);
      head + Render(format[1..], d)
  }

  /** The fields a format carries, read off a date. */
  function StoreAll(format: seq<Piece>, d: Date, acc: Fields): Fields
  {
    if format == [] then acc
    else
      var v := match format[0] case Day => d.day case Month => d.month case _ => d.year;
      StoreAll(format[1..], d, Store(acc, format[0], v))
  }

  /** Rendering a date in a format and matching it against the same format strictly
      reads back the date's fields. */
  lemma {:induction false} MatchRender(format: seq<Piece>, d: Date, acc: Fields)
    requires 0 <= d.year < 10000 && 0 <= d.month < 100 && 0 <= d.day < 100
    ensures MatchPieces(format, Render(format, d), acc) == Some(StoreAll(format, d, acc))
    decreases |format|
  {
    if format != [] {
      var s := Render(format, d);
      var tail := Render(format[1..], d);
      match format[0]
      case Glyph(c) =>
        assert s == [c] + tail;
        assert s[1..] == tail;
        MatchRender(format[1..], d, acc);
      case Day =>
        var head := PaddedDigits(d.day, 2);
        assert s == head + tail && s[..2] == head && s[2..] == tail;
        PaddedDigitsValue(d.day, 2);
        MatchRender(format[1..], d, Store(acc, Day, d.day));
      case Month =>
        var head := PaddedDigits(d.month, 2);
        assert s == head + tail && s[..2] == head && s[2..] == tail;
        PaddedDigitsValue(d.month, 2);
        MatchRender(format[1..], d, Store(acc, Month, d.month));
      case Year =>
        var head := PaddedDigits(d.year, 4);
        assert s == head + tail && s[..4] == head && s[4..] == tail;
        PaddedDigitsValue(d.year, 4);
        MatchRender(format[1..], d, Store(acc, Year, d.year));
    }
  }

  /** Reading a rendered date stores exactly the fields the format names. */
  lemma {:induction false} StoreAllReads(format: seq<Piece>, d: Date, acc: Fields)
    ensures StoreAll(format, d, acc).year == if Year in format then Some(d.year) else acc.year
    ensures StoreAll(format, d, acc).month == if Month in format then Some(d.month) else acc.month
    ensures StoreAll(format, d, acc).day == if Day in format then Some(d.day) else acc.day
    decreases |format|
  {
    if format != [] {
      var v := match format[0] case Day => d.day case Month => d.month case _ => d.year;
      StoreAllReads(format[1..], d, Store(acc, format[0], v));
      assert format == [format[0]] + format[1..];
    }
  }

  /** Every format, for every date whose fields fit its digits: the written token
      is accepted exactly when the date it names exists (a year-less format names
      the clock's year, as moment does), and the result is that date moved to the
      reference year by the `year(y)` setter. A year written in the token is
      therefore checked and then discarded. */
  lemma AllFormatsRoundTrip(k: int, d: Date, refYear: int, clockYear: int)
    requires 0 <= k < |Formats|
    requires 0 <= d.year < 10000 && 0 <= d.month < 100 && 0 <= d.day < 100
    ensures var e := if Year in Formats[k] then d else Date(clockYear, d.month, d.day);
            FirstStrictMatch(Render(Formats[k], d), Formats, refYear, clockYear)
            == if ValidDate(e) then Some(WithYear(e, refYear)) else None
  {
    FormatNamesDayAndMonth(k);
    RenderStrictParse(Formats[k], d, clockYear);
    OnlyOwnWidthMatches(Render(Formats[k], d), k, clockYear);
    SingleCandidate(Render(Formats[k], d), k, refYear, clockYear);
  }

  lemma FormatNamesDayAndMonth(k: int)
    requires 0 <= k < |Formats|
    ensures Day in Formats[k] && Month in Formats[k]
  {
    if k == 0 { assert DayMonth[0] == Day && DayMonth[2] == Month; }
    else if k == 1 { assert DayMonthYear[0] == Day && DayMonthYear[2] == Month; }
    else if k == 2 { assert KanjiYearMonthDay[4] == Day && KanjiYearMonthDay[2] == Month; }
    else { assert KanjiMonthDay[2] == Day && KanjiMonthDay[0] == Month; }
  }

  /** A rendered date, parsed back strictly in its own format, is the date it
      names when that date exists. */
  lemma RenderStrictParse(format: seq<Piece>, d: Date, clockYear: int)
    requires Day in format && Month in format
    requires 0 <= d.year < 10000 && 0 <= d.month < 100 && 0 <= d.day < 100
    ensures |Render(format, d)| == TotalWidth(format)
    ensures var e := if Year in format then d else Date(clockYear, d.month, d.day);
            StrictParse(Render(format, d), format, clockYear) == if ValidDate(e) then Some(e) else None
  {
    MatchRender(format, d, NoFields);
    StoreAllReads(format, d, NoFields);
  }

  /** Only the format of the token's width can match it. */
  lemma OnlyOwnWidthMatches(token: string, k: int, clockYear: int)
    requires 0 <= k < |Formats| && |token| == TotalWidth(Formats[k])
    ensures forall j :: 0 <= j < |Formats| && j != k ==> StrictParse(token, Formats[j], clockYear).None?
  {
    FormatWidths();
  }

  /** With a single candidate format, the search returns that format's result. */
  lemma SingleCandidate(token: string, k: int, refYear: int, clockYear: int)
    requires 0 <= k < |Formats|
    requires forall j :: 0 <= j < |Formats| && j != k ==> StrictParse(token, Formats[j], clockYear).None?
    ensures FirstStrictMatch(token, Formats, refYear, clockYear)
            == match StrictParse(token, Formats[k], clockYear)
               case None => None
               case Some(e) => Some(WithYear(e, refYear))
  {
  }

  /** "29/02" is checked against the clock's year before the reference year is
      applied: it is refused in any common clock year, even when the reference
      year is a leap year, and it becomes 28 February when the clock year is a
      leap year and the reference year is not. */
  lemma LeapDayDependsOnClockYear(refYear: int, clockYear: int)
    ensures !IsLeapYear(clockYear) ==> FirstStrictMatch("29/02", Formats, refYear, clockYear).None?
    ensures IsLeapYear(clockYear) && !IsLeapYear(refYear) ==>
              FirstStrictMatch("29/02", Formats, refYear, clockYear) == Some(Date(refYear, 2, 28))
  {
    var e := Date(clockYear, 2, 29);
    assert Formats[0] == [Day, Glyph('/'), Month];
    assert Year !in Formats[0];
    assert "29/02" == Render(Formats[0], Date(0, 2, 29));
    AllFormatsRoundTrip(0, Date(0, 2, 29), refYear, clockYear);
    assert ValidDate(e) <==> IsLeapYear(clockYear);
  }

  /** "12月23日" is 23 December of the reference year, whatever the clock's year. */
  lemma KanjiMonthDayExample(clockYear: int)
    ensures FirstStrictMatch("12月23日", Formats, 2025, clockYear) == Some(Date(2025, 12, 23))
  {
    assert "12月23日" == Render(Formats[3], Date(0, 12, 23));
    AllFormatsRoundTrip(3, Date(0, 12, 23), 2025, clockYear);
  }
}
