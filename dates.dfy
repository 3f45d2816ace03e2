/** `etlutil/date.py`: `_parse_date`, `format_year_month` and `generate_date_array`. */
module Dates {
  import opened Outcomes
  import opened Decimal
  import opened Calendar
  import Values

  // ---------------------------------------------------------------------
  // `_parse_date` and `format_year_month`
  // ---------------------------------------------------------------------

  /** A `DateInput`: a `date` object or a string. */
  datatype DateInput = DateObject(date: Date) | Text(text: string)

  /** A `date` object always holds a valid date. */
  predicate ValidInput(input: DateInput) {
    input.DateObject? ==> Valid(input.date)
  }

  /** The extended ISO 8601 calendar date `YYYY-MM-DD` (section 4.1.2.2 of
      ISO 8601:2004) that `date.isoformat()` prints. */
  function IsoFormat(d: Date): (s: string)
    requires Valid(d)
    ensures |s| == 10
  {
    FixedDigits(d.year, 4) + "-" + FixedDigits(d.month, 2) + "-" + FixedDigits(d.day, 2)
  }

  /** The text has the shape `DDDD-DD-DD`, digits and hyphens. */
  predicate IsoShaped(s: string) {
    |s| == 10 && s[4] == '-' && s[7] == '-'
    && AllDigits(s[..4]) && AllDigits(s[5..7]) && AllDigits(s[8..])
  }

  /** `date.fromisoformat(s)`: a badly shaped text raises `ValueError` with
      the text's `repr`; a year, month or day out of range raises the
      `ValueError` of the `date` constructor. */
  function FromIsoFormat(s: string): (r: Result<Date>)
    ensures r.Success? ==> Valid(r.value)
    ensures r.Failure? ==> r.error.ValueError?
  {
    if !IsoShaped(s) then Failure(ValueError("Invalid isoformat string: " + Values.ReprStr(s)))
    else
      var y, m, d := DigitsValue(s[..4]), DigitsValue(s[5..7]), DigitsValue(s[8..]);
      if y < MinYear || y > MaxYear then Failure(YearOutOfRange(y))
      else if m < 1 || m > 12 then Failure(ValueError("month must be in 1..12"))
      else if d < 1 || d > DaysInMonth(y, m) then Failure(ValueError("day is out of range for month"))
      else Success(Date(y, m, d))
  }

  /** `_parse_date(date_input)`. */
  function ParseDate(input: DateInput): (r: Result<Date>)
    requires ValidInput(input)
    ensures r.Success? ==> Valid(r.value)
    ensures input.DateObject? ==> r == Success(input.date)
    ensures input.Text? ==> r == FromIsoFormat(input.text)
  {
    match input
    case DateObject(d) => Success(d)
    case Text(s) => FromIsoFormat(s)
  }

  /** `format_year_month(date_input)`: `strftime("%Y-%m")` of the parsed
      date, a 4-digit year, a hyphen and a 2-digit month (section 4.1.2.3 of
      ISO 8601:2004); a string that does not parse raises its `ValueError`. */
  function FormatYearMonth(input: DateInput): (r: Result<string>)
    requires ValidInput(input)
    ensures r.Failure? <==> ParseDate(input).Failure?
    ensures r.Failure? ==> r.error == ParseDate(input).error
    ensures r.Success? ==>
      var d := ParseDate(input).value;
      && |r.value| == 7 && r.value[4] == '-' && AllDigits(r.value[..4]) && AllDigits(r.value[5..])
      && DigitsValue(r.value[..4]) == d.year && DigitsValue(r.value[5..]) == d.month
  {
    var p := ParseDate(input);
    if p.Failure? then Failure(p.error)
    else
      var d := p.value;
      FixedDigitsRoundTrip(d.year, 4);
      FixedDigitsRoundTrip(d.month, 2);
      var s := FixedDigits(d.year, 4) + "-" + FixedDigits(d.month, 2);
      assert s[..4] == FixedDigits(d.year, 4) && s[5..] == FixedDigits(d.month, 2);
      Success(s)
  }

  /** Parsing what `isoformat` prints gives the date back. */
  lemma IsoRoundTrip(d: Date)
    requires Valid(d)
    ensures FromIsoFormat(IsoFormat(d)) == Success(d)
  {
    var s := IsoFormat(d);
    assert s[..4] == FixedDigits(d.year, 4);
    assert s[5..7] == FixedDigits(d.month, 2);
    assert s[8..] == FixedDigits(d.day, 2);
    FixedDigitsRoundTrip(d.year, 4);
    FixedDigitsRoundTrip(d.month, 2);
    FixedDigitsRoundTrip(d.day, 2);
  }

  /** A text that parses is exactly the `isoformat` of its date. */
  lemma ParsedIsIso(s: string)
    requires FromIsoFormat(s).Success?
    ensures IsoFormat(FromIsoFormat(s).value) == s
  {
    var d := FromIsoFormat(s).value;
    DigitsFixedRoundTrip(s[..4]);
    DigitsFixedRoundTrip(s[5..7]);
    DigitsFixedRoundTrip(s[8..]);
    assert s == s[..4] + "-" + s[5..7] + "-" + s[8..];
  }

  /** `date.fromisoformat` accepts exactly the texts `isoformat` prints. */
  lemma FromIsoFormatAccepts(s: string)
    ensures FromIsoFormat(s).Success? <==> exists d :: Valid(d) && IsoFormat(d) == s
  {
    if FromIsoFormat(s).Success? {
      ParsedIsIso(s);
    }
    forall d | Valid(d) && IsoFormat(d) == s
      ensures FromIsoFormat(s).Success?
    {
      IsoRoundTrip(d);
    }
  }

  /** The year-month of a date is the first seven characters of its ISO text. */
  lemma FormatYearMonthOfDate(d: Date)
    requires Valid(d)
    ensures FormatYearMonth(DateObject(d)) == Success(IsoFormat(d)[..7])
  {
    assert IsoFormat(d)[..7] == FixedDigits(d.year, 4) + "-" + FixedDigits(d.month, 2);
  }

  /** For a text that parses, `format_year_month` keeps its `YYYY-MM` prefix. */
  lemma FormatYearMonthOfText(s: string)
    requires FromIsoFormat(s).Success?
    ensures FormatYearMonth(Text(s)) == Success(s[..7])
  {
    ParsedIsIso(s);
    FormatYearMonthOfDate(FromIsoFormat(s).value);
  }

  lemma Digits2024()
    ensures DigitsValue("2024") == 2024 && DigitsValue("13") == 13
    ensures DigitsValue("02") == 2 && DigitsValue("30") == 30 && DigitsValue("01") == 1
    ensures AllDigits("2024") && AllDigits("13") && AllDigits("02") && AllDigits("30") && AllDigits("01")
  {
    assert "2024"[..3] == "202" && "202"[..2] == "20" && "20"[..1] == "2";
    assert "13"[..1] == "1" && "02"[..1] == "0" && "30"[..1] == "3" && "01"[..1] == "0";
  }

  /** Month 13 is refused. */
  lemma MonthThirteenRefused(s: string)
    requires s == "2024-13-01"
    ensures FromIsoFormat(s) == Failure(ValueError("month must be in 1..12"))
  {
    assert s[..4] == "2024" && s[5..7] == "13" && s[8..] == "01";
    Digits2024();
    assert IsoShaped(s);
  }

  /** 30 February is refused, also in a leap year. */
  lemma FebruaryThirtiethRefused(s: string)
    requires s == "2024-02-30"
    ensures FromIsoFormat(s) == Failure(ValueError("day is out of range for month"))
  {
    assert s[..4] == "2024" && s[5..7] == "02" && s[8..] == "30";
    Digits2024();
    assert IsoShaped(s);
    assert DaysInMonth(2024, 2) == 29;
  }

  /** A text that is no date is refused with its `repr` (`"invalid-date"`). */
  lemma GarbageRefused()
    ensures FromIsoFormat("invalid-date") == Failure(ValueError("Invalid isoformat string: " + Values.ReprStr("invalid-date")))
  {
    assert |"invalid-date"| == 12;
  }

  // ---------------------------------------------------------------------
  // `generate_date_array`
  // ---------------------------------------------------------------------

  /** The five `date_part` literals. */
  datatype DatePart = DAY | WEEK | MONTH | QUARTER | YEAR

  /** `date_start + <n parts>`, as the `match` in the loop computes it: a
      week is 7 days, a quarter 3 months. */
  function Shift(start: Date, part: DatePart, n: int): (r: Result<Date>)
    requires Valid(start)
    ensures r.Success? ==> Valid(r.value)
  {
    match part
    case DAY => PlusDays(start, n)
    case WEEK => PlusDays(start, 7 * n)
    case MONTH => PlusMonths(start, n)
    case QUARTER => PlusMonths(start, n * 3)
    case YEAR => PlusYears(start, n)
  }

  /** The loop's exit test: `current` lies beyond `date_end` in the direction of the steps. */
  predicate Past(interval: int, current: Date, end: Date) {
    (interval > 0 && Before(end, current)) || (interval < 0 && Before(current, end))
  }

  /** `xs` in front of a list, or the exception. */
  function Prefixed(xs: seq<Date>, r: Result<seq<Date>>): Result<seq<Date>> {
    match r
    case Success(ys) => Success(xs + ys)
    case Failure(e) => Failure(e)
  }

  function Abs(x: int): nat {
    if x < 0 then -x else x
  }

  lemma StepWithinOffset(interval: int, step: nat)
    requires interval != 0
    ensures step <= Abs(interval * step)
  {
    if interval > 0 {
      assert interval * step == step + (interval - 1) * step;
    } else {
      assert -(interval * step) == step + (-interval - 1) * step;
    }
  }

  /** A representable candidate is fewer than `MaxOrdinal` parts from the start. */
  lemma ShiftBound(start: Date, part: DatePart, n: int)
    requires Valid(start) && Shift(start, part, n).Success?
    ensures Abs(n) < MaxOrdinal
  {
    OrdinalRange(start);
    var r := Shift(start, part, n).value;
    OrdinalRange(r);
  }

  /** The candidate of each step: `date_start` plus `interval * step` parts. */
  function Candidate(start: Date, part: DatePart, interval: int): nat -> Result<Date>
    requires Valid(start)
  {
    j => Shift(start, part, interval * j)
  }

  /** The loop's exit test, for one `interval` and `date_end`. */
  function PastEnd(interval: int, end: Date): Date -> bool {
    c => Past(interval, c, end)
  }

  /** Only the first `MaxOrdinal` steps have a date for their candidate. */
  lemma CandidateBound(start: Date, part: DatePart, interval: int)
    requires Valid(start) && interval != 0
    ensures forall j: nat :: Candidate(start, part, interval)(j).Success? ==> j < MaxOrdinal
  {
    forall j: nat | Candidate(start, part, interval)(j).Success?
      ensures j < MaxOrdinal
    {
      ShiftBound(start, part, interval * j);
      StepWithinOffset(interval, j);
    }
  }

  /** The `while True` loop from `step` on, over any candidates that stop
      being dates after `bound` steps: the dates it still appends and how it
      ends. As written (`stopOutOfRange` false), a candidate that is not a
      date raises; corrected, it ends the list the way a candidate past the
      end does. */
  function Loop(candidate: nat -> Result<Date>, past: Date -> bool, bound: nat, step: nat, stopOutOfRange: bool)
    : Result<seq<Date>>
    requires forall j: nat :: candidate(j).Success? ==> j < bound
    decreases bound - step
  {
    var c := candidate(step);
    if c.Failure? then (if stopOutOfRange then Success([]) else Failure(c.error))
    else if past(c.value) then Success([])
    else Prefixed([c.value], Loop(candidate, past, bound, step + 1, stopOutOfRange))
  }

  /** The loop of `generate_date_array` from `step` on. */
  function Steps(start: Date, end: Date, interval: int, part: DatePart, step: nat, stopOutOfRange: bool)
    : Result<seq<Date>>
    requires Valid(start) && Valid(end) && interval != 0
  {
    CandidateBound(start, part, interval);
    Loop(Candidate(start, part, interval), PastEnd(interval, end), MaxOrdinal, step, stopOutOfRange)
  }

  /** What `generate_date_array` does once both dates are parsed: the
      start date alone when it is the end date, nothing when the two are out
      of order for the sign of `interval`, otherwise the loop. */
  function Between(s: Date, e: Date, interval: int, part: DatePart, stopOutOfRange: bool): Result<seq<Date>>
    requires Valid(s) && Valid(e) && interval != 0
  {
    if s == e then Success([s])
    else if interval > 0 && Before(e, s) then Success([])
    else if interval < 0 && Before(s, e) then Success([])
    else Steps(s, e, interval, part, 0, stopOutOfRange)
  }

  /** `generate_date_array(date_start, date_end, interval, date_part)`: no
      dates for a zero `interval`, then the exception of a text that does
      not parse, then `Between`. */
  function Generated(dateStart: DateInput, dateEnd: DateInput, interval: int, part: DatePart, stopOutOfRange: bool)
    : Result<seq<Date>>
    requires ValidInput(dateStart) && ValidInput(dateEnd)
  {
    if interval == 0 then Success([])
    else
      var s :- ParseDate(dateStart);
      var e :- ParseDate(dateEnd);
      Between(s, e, interval, part, stopOutOfRange)
  }

  /** `generate_date_array` as written. */
  function DateArrayAsWritten(dateStart: DateInput, dateEnd: DateInput, interval: int := 1, part: DatePart := DAY)
    : (r: Result<seq<Date>>)
    requires ValidInput(dateStart) && ValidInput(dateEnd)
  {
    Generated(dateStart, dateEnd, interval, part, false)
  }

  /** `generate_date_array` with an unrepresentable candidate taken as past the end. */
  function DateArray(dateStart: DateInput, dateEnd: DateInput, interval: int, part: DatePart)
    : (r: Result<seq<Date>>)
    requires ValidInput(dateStart) && ValidInput(dateEnd)
  {
    Generated(dateStart, dateEnd, interval, part, true)
  }

  lemma PrefixedNothing(r: Result<seq<Date>>)
    ensures Prefixed([], r) == r
  {
    if r.Success? {
      assert [] + r.value == r.value;
    }
  }

  lemma PrefixedAppend(xs: seq<Date>, x: Date, r: Result<seq<Date>>)
    ensures Prefixed(xs, Prefixed([x], r)) == Prefixed(xs + [x], r)
  {
    if r.Success? {
      assert xs + ([x] + r.value) == (xs + [x]) + r.value;
    }
  }

  /** `generate_date_array(date_start, date_end, interval, date_part)`: the
      special cases, then the loop. */
  method GenerateDateArray(dateStart: DateInput, dateEnd: DateInput, interval: int := 1, part: DatePart := DAY)
    returns (r: Result<seq<Date>>)
    requires ValidInput(dateStart) && ValidInput(dateEnd)
    ensures r == DateArrayAsWritten(dateStart, dateEnd, interval, part)
  {
    if interval == 0 {
      return Success([]);
    }
    var s :- ParseDate(dateStart);
    var e :- ParseDate(dateEnd);
    if s == e {
      return Success([s]);
    }
    if interval > 0 && Before(e, s) {
      return Success([]);
    }
    if interval < 0 && Before(s, e) {
      return Success([]);
    }
    r := StepDates(s, e, interval, part);
  }

  /** The `while True` loop with its `step` counter and `date_list.append`. */
  method StepDates(s: Date, e: Date, interval: int, part: DatePart) returns (r: Result<seq<Date>>)
    requires Valid(s) && Valid(e) && interval != 0
    ensures r == Steps(s, e, interval, part, 0, false)
  {
    ghost var candidate, past := Candidate(s, part, interval), PastEnd(interval, e);
    CandidateBound(s, part, interval);
    var dateList: seq<Date> := [];
    var step: nat := 0;
    PrefixedNothing(Loop(candidate, past, MaxOrdinal, 0, false));
    while true
      invariant step <= MaxOrdinal
      invariant Steps(s, e, interval, part, 0, false) == Prefixed(dateList, Loop(candidate, past, MaxOrdinal, step, false))
      decreases MaxOrdinal - step
    {
      var next := Shift(s, part, interval * step);
      assert candidate(step) == next;
      if next.Failure? {
        return Failure(next.error);
      }
      var current := next.value;
      if Past(interval, current, e) {
        assert past(current);
        break;
      }
      assert !past(current);
      PrefixedAppend(dateList, current, Loop(candidate, past, MaxOrdinal, step + 1, false));
      dateList := dateList + [current];
      step := step + 1;
    }
    assert dateList + [] == dateList;
    return Success(dateList);
  }
}
