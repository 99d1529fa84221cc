/** The `TopMovies` view: validation of the `start`/`end` query parameters
    and the report built from them. */
module TopMovies {
  import opened Wrappers
  import opened Calendar
  import opened Records
  import opened Ranking
  import opened Seqs

  /** A query parameter named in an error body. */
  datatype Param = StartParam | EndParam

  /** What `get_start_end_date_from_request` ends with. */
  datatype RangeResult =
    | MissingParams(missing: seq<Param>)   // exceptions.NotFound
    | InvalidDates(invalid: seq<Param>)    // exceptions.ValidationError, one key per bad date
    | StartAfterEnd                        // exceptions.ValidationError on 'start'
    | EndOverflow                          // OverflowError, not caught by `except ValueError`
    | DateRange(start: string, end: string)

  function Present(absent: bool, p: Param): seq<Param> {
    if absent then [p] else []
  }

  /** The validator's outcome, check by check in the order the view makes
      them: presence of both keys, the end date's day-after (which overflows
      on the last representable date), the format of each date, and finally
      the advanced end compared with the start. */
  function ValidateRange(start: Option<string>, end: Option<string>): RangeResult {
    if start.None? || end.None? then
      MissingParams(Present(start.None?, StartParam) + Present(end.None?, EndParam))
    else
      var s := ParseDate(start.value);
      var e := ParseDate(end.value);
      if e == Some(LastDate) then
        EndOverflow
      else if s.None? || e.None? then
        InvalidDates(Present(s.None?, StartParam) + Present(e.None?, EndParam))
      else
        var next := AddOneDay(e.value).value;
        if Before(next, s.value) then StartAfterEnd else DateRange(start.value, Format(next))
  }

  /** `get_start_end_date_from_request`: fills the missing-key and
      invalid-date collections field by field and advances `end` in place. */
  method GetStartEndDate(start: Option<string>, end: Option<string>) returns (r: RangeResult)
    ensures r == ValidateRange(start, end)
  {
    var missing: seq<Param> := [];
    if start.None? {
      missing := missing + [StartParam];
    }
    if end.None? {
      missing := missing + [EndParam];
    }
    if missing != [] {
      return MissingParams(missing);
    }
    var invalid: seq<Param> := [];
    var startDate := ParseDate(start.value);
    if startDate.None? {
      invalid := invalid + [StartParam];
    }
    var endText := end.value;
    var endDate := ParseDate(endText);
    if endDate.None? {
      invalid := invalid + [EndParam];
    } else {
      var next := AddOneDay(endDate.value);
      if next.None? {
        return EndOverflow;
      }
      endDate := next;
      endText := Format(next.value);
    }
    if invalid != [] {
      return InvalidDates(invalid);
    }
    if Before(endDate.value, startDate.value) {
      return StartAfterEnd;
    }
    return DateRange(start.value, endText);
  }

  // ---------------------------------------------------------------------
  // What the validator promises.

  /** Absence is decided first and reported as not found, naming every
      missing key once, whatever the other parameter holds. */
  lemma MissingParamsReported(start: Option<string>, end: Option<string>)
    ensures var r := ValidateRange(start, end);
      && (r.MissingParams? <==> start.None? || end.None?)
      && (r.MissingParams? ==>
            && (StartParam in r.missing <==> start.None?)
            && (EndParam in r.missing <==> end.None?)
            && Distinct(r.missing))
  {
  }

  /** Unparseable dates are reported together, one key for each, and no
      range check is made. */
  lemma InvalidDatesReported(start: string, end: string)
    requires ParseDate(end) != Some(LastDate)
    ensures var r := ValidateRange(Some(start), Some(end));
      && (r.InvalidDates? <==> ParseDate(start).None? || ParseDate(end).None?)
      && (r.InvalidDates? ==>
            && (StartParam in r.invalid <==> ParseDate(start).None?)
            && (EndParam in r.invalid <==> ParseDate(end).None?)
            && Distinct(r.invalid))
  {
  }

  /** An end date of 9999-12-31 ends in the unhandled overflow, whether or
      not the start date is valid. */
  lemma EndOverflowIff(start: string, end: string)
    ensures ValidateRange(Some(start), Some(end)).EndOverflow? <==> ParseDate(end) == Some(LastDate)
  {
  }

  /** On success the start string is returned unchanged and the end string
      is the zero-padded form of the day after the given end date: it reads
      back as that day, one day number later, not before the start. */
  lemma {:induction false} DateRangeBounds(start: string, end: string)
    requires ValidateRange(Some(start), Some(end)).DateRange?
    ensures var r := ValidateRange(Some(start), Some(end));
      && r.start == start
      && ParseDate(start).Some? && ParseDate(end).Some? && ParseDate(end) != Some(LastDate)
      && ParseDate(r.end) == AddOneDay(ParseDate(end).value)
      && DayNumber(ParseDate(r.end).value) == DayNumber(ParseDate(end).value) + 1
      && Format(ParseDate(r.end).value) == r.end
      && !Before(ParseDate(r.end).value, ParseDate(start).value)
  {
    var e := ParseDate(end).value;
    var next := AddOneDay(e).value;
    ParseFormat(next);
    NextDayNumber(e);
  }

  /** The range error is raised exactly when the end date lies at least two
      days before the start date: because the comparison uses the advanced
      end, a start one day after the end is accepted. */
  lemma {:induction false} StartAfterEndIff(start: string, end: string)
    requires ParseDate(start).Some? && ParseDate(end).Some? && ParseDate(end) != Some(LastDate)
    ensures ValidateRange(Some(start), Some(end)).StartAfterEnd?
        <==> DayNumber(ParseDate(end).value) + 2 <= DayNumber(ParseDate(start).value)
  {
    var s := ParseDate(start).value;
    var e := ParseDate(end).value;
    NextDayNumber(e);
    BeforeIffSmallerDayNumber(AddOneDay(e).value, s);
  }

  /** The request `start=2018-01-02&end=2018-01-01` is accepted, with the
      single-instant window [2018-01-02 00:00, 2018-01-02 00:00]. */
  lemma StartOneDayAfterEndAccepted()
    ensures ValidateRange(Some("2018-01-02"), Some("2018-01-01")) == DateRange("2018-01-02", "2018-01-02")
  {
    ParseFormat(Date(2018, 1, 2));
    ParseFormat(Date(2018, 1, 1));
    assert Format(Date(2018, 1, 2)) == "2018-01-02";
    assert Format(Date(2018, 1, 1)) == "2018-01-01";
  }

  // ---------------------------------------------------------------------
  // The view.

  datatype TopResponse = Rejected(error: RangeResult) | Report(entries: seq<Entry>)

  /** The HTTP status of each answer: not found for a missing key, the
      uncaught overflow as a server error, every validation error as a bad
      request, and the report as success. */
  function StatusCode(r: TopResponse): (status: int)
    ensures status == 200 <==> r.Report?
    ensures status == 404 <==> r.Rejected? && r.error.MissingParams?
    ensures status == 500 <==> r.Rejected? && r.error.EndOverflow?
    ensures status == 400 <==> r.Rejected? && (r.error.InvalidDates? || r.error.StartAfterEnd? || r.error.DateRange?)
  {
    match r
    case Report(_) => 200
    case Rejected(MissingParams(_)) => 404
    case Rejected(EndOverflow) => 500
    case Rejected(_) => 400
  }

  /** `TopMovies.get` over a snapshot of the movie and comment tables: the
      validated bounds go to the query as `YYYY-MM-DD` strings, which stand
      for midnight of those days. */
  method Get(movies: seq<Movie>, comments: seq<Comment>, start: Option<string>, end: Option<string>)
    returns (resp: TopResponse)
    ensures !ValidateRange(start, end).DateRange? ==> resp == Rejected(ValidateRange(start, end))
    ensures ValidateRange(start, end).DateRange? ==>
      && start.Some? && end.Some?
      && ParseDate(start.value).Some? && ParseDate(end.value).Some?
      && ParseDate(end.value) != Some(LastDate)
      && resp == Report(TopList(movies, comments, ParseDate(start.value).value,
                                AddOneDay(ParseDate(end.value).value).value))
    ensures StatusCode(resp) == 404 <==> start.None? || end.None?
    ensures StatusCode(resp) == 500 <==> start.Some? && end.Some? && ParseDate(end.value) == Some(LastDate)
    ensures StatusCode(resp) == 400 <==>
      && start.Some? && end.Some? && ParseDate(end.value) != Some(LastDate)
      && (|| ParseDate(start.value).None? || ParseDate(end.value).None?
          || DayNumber(ParseDate(end.value).value) + 2 <= DayNumber(ParseDate(start.value).value))
    ensures StatusCode(resp) == 200 <==> ValidateRange(start, end).DateRange?
  {
    var range := GetStartEndDate(start, end);
    if start.Some? && end.Some? && ParseDate(start.value).Some? && ParseDate(end.value).Some?
       && ParseDate(end.value) != Some(LastDate) {
      StartAfterEndIff(start.value, end.value);
    }
    if !range.DateRange? {
      return Rejected(range);
    }
    ghost var endDate := ParseDate(end.value).value;
    DateRangeBounds(start.value, end.value);
    // the query receives the bounds as text and reads them back as dates
    var lo := ParseDate(range.start);
    var hi := ParseDate(range.end);
    assert hi == AddOneDay(endDate);
    resp := Report(TopList(movies, comments, lo.value, hi.value));
  }
}
