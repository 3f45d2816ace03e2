/** What `generate_date_array` returns: the candidates its loop computes,
    in order, up to the first one past the end date. */
module DateProperties {
  import opened Outcomes
  import opened Calendar
  import opened Dates

  // ---------------------------------------------------------------------
  // The candidates
  // ---------------------------------------------------------------------

  /** A zero offset is the start date itself. */
  lemma ShiftZero(start: Date, part: DatePart)
    requires Valid(start)
    ensures Shift(start, part, 0) == Success(start)
  {
    PlusZero(start);
    assert 7 * 0 == 0 && 0 * 3 == 0;
  }

  /** A larger offset gives a later date, whatever the part. */
  lemma ShiftMonotone(start: Date, part: DatePart, n1: int, n2: int)
    requires Valid(start) && n1 < n2
    requires Shift(start, part, n1).Success? && Shift(start, part, n2).Success?
    ensures Before(Shift(start, part, n1).value, Shift(start, part, n2).value)
  {
    var a, b := Shift(start, part, n1).value, Shift(start, part, n2).value;
    match part
    case DAY => OrdinalOrder(a, b);
    case WEEK => OrdinalOrder(a, b);
    case MONTH => MonthIndexOrder(a, b);
    case QUARTER => MonthIndexOrder(a, b);
    case YEAR =>
  }

  /** A month step from the 31st of January lands on the last day of
      February, and two steps on the 31st of March: each candidate is
      computed from the start date, not from the one before. */
  lemma MonthEndClamped(start: Date)
    requires start == Date(2024, 1, 31)
    ensures Shift(start, MONTH, 1) == Success(Date(2024, 2, 29))
    ensures Shift(start, MONTH, 2) == Success(Date(2024, 3, 31))
  {
    var r1, r2 := PlusMonths(start, 1).value, PlusMonths(start, 2).value;
    assert r1.year * 12 + r1.month - 1 == 2024 * 12 + 1;
    assert r1.year == 2024 && r1.month == 2;
    assert r2.year * 12 + r2.month - 1 == 2024 * 12 + 2;
    assert r2.year == 2024 && r2.month == 3;
  }

  // ---------------------------------------------------------------------
  // The loop from `step` on, for any candidates
  // ---------------------------------------------------------------------

  /** The candidates from `step` up to `step + |xs|` are the dates `xs`,
      none of them past the end. */
  predicate Candidates(candidate: nat -> Result<Date>, past: Date -> bool, step: nat, xs: seq<Date>) {
    forall k :: 0 <= k < |xs| ==> candidate(step + k) == Success(xs[k]) && !past(xs[k])
  }

  /** The candidate at step `j` ends the loop: it is past the end or, when
      `stopOutOfRange`, not a date. */
  predicate Ends(candidate: nat -> Result<Date>, past: Date -> bool, j: nat, stopOutOfRange: bool) {
    var c := candidate(j);
    (c.Failure? && stopOutOfRange) || (c.Success? && past(c.value))
  }

  /** Candidates from `step` are the one at `step` and those from `step + 1`. */
  lemma CandidatesCons(candidate: nat -> Result<Date>, past: Date -> bool, step: nat, x: Date, ys: seq<Date>)
    requires candidate(step) == Success(x) && !past(x)
    requires Candidates(candidate, past, step + 1, ys)
    ensures Candidates(candidate, past, step, [x] + ys)
  {
    var xs := [x] + ys;
    forall k | 0 <= k < |xs|
      ensures candidate(step + k) == Success(xs[k]) && !past(xs[k])
    {
      if k > 0 {
        assert xs[k] == ys[k - 1];
        assert step + k == (step + 1) + (k - 1);
      }
    }
  }

  /** The converse split of `CandidatesCons`. */
  lemma CandidatesUncons(candidate: nat -> Result<Date>, past: Date -> bool, step: nat, xs: seq<Date>)
    requires |xs| > 0 && Candidates(candidate, past, step, xs)
    ensures candidate(step) == Success(xs[0]) && !past(xs[0])
    ensures Candidates(candidate, past, step + 1, xs[1..])
  {
    assert step + 0 == step;
    forall k | 0 <= k < |xs[1..]|
      ensures candidate(step + 1 + k) == Success(xs[1..][k]) && !past(xs[1..][k])
    {
      assert xs[1..][k] == xs[k + 1];
      assert step + 1 + k == step + (k + 1);
    }
  }

  /** What the loop appends: each candidate in turn, up to the first one
      that ends it. */
  lemma {:induction false} LoopElements(candidate: nat -> Result<Date>, past: Date -> bool, bound: nat, step: nat, stopOutOfRange: bool)
    requires forall j: nat :: candidate(j).Success? ==> j < bound
    requires Loop(candidate, past, bound, step, stopOutOfRange).Success?
    ensures var xs := Loop(candidate, past, bound, step, stopOutOfRange).value;
      Candidates(candidate, past, step, xs) && Ends(candidate, past, step + |xs|, stopOutOfRange)
    decreases bound - step
  {
    var c := candidate(step);
    if c.Success? && !past(c.value) {
      LoopElements(candidate, past, bound, step + 1, stopOutOfRange);
      var ys := Loop(candidate, past, bound, step + 1, stopOutOfRange).value;
      CandidatesCons(candidate, past, step, c.value, ys);
      assert step + |[c.value] + ys| == step + 1 + |ys|;
    }
  }

  /** The converse: dates that are the candidates up to one that ends the
      loop are what the loop returns. */
  lemma {:induction false} LoopFromElements(candidate: nat -> Result<Date>, past: Date -> bool, bound: nat, step: nat, stopOutOfRange: bool, xs: seq<Date>)
    requires forall j: nat :: candidate(j).Success? ==> j < bound
    requires Candidates(candidate, past, step, xs) && Ends(candidate, past, step + |xs|, stopOutOfRange)
    ensures Loop(candidate, past, bound, step, stopOutOfRange) == Success(xs)
    decreases |xs|
  {
    if xs != [] {
      CandidatesUncons(candidate, past, step, xs);
      assert step + 1 + |xs[1..]| == step + |xs|;
      LoopFromElements(candidate, past, bound, step + 1, stopOutOfRange, xs[1..]);
      assert [xs[0]] + xs[1..] == xs;
    }
  }

  /** Only the code as written raises from the loop. */
  lemma {:induction false} LoopFailureAsWritten(candidate: nat -> Result<Date>, past: Date -> bool, bound: nat, step: nat, stopOutOfRange: bool)
    requires forall j: nat :: candidate(j).Success? ==> j < bound
    requires Loop(candidate, past, bound, step, stopOutOfRange).Failure?
    ensures !stopOutOfRange
    decreases bound - step
  {
    var c := candidate(step);
    if c.Success? && !past(c.value) {
      LoopFailureAsWritten(candidate, past, bound, step + 1, stopOutOfRange);
    }
  }

  /** The corrected loop always returns a list. */
  lemma LoopTotal(candidate: nat -> Result<Date>, past: Date -> bool, bound: nat, step: nat)
    requires forall j: nat :: candidate(j).Success? ==> j < bound
    ensures Loop(candidate, past, bound, step, true).Success?
  {
    if Loop(candidate, past, bound, step, true).Failure? {
      LoopFailureAsWritten(candidate, past, bound, step, true);
    }
  }

  /** Where the code as written raises, the corrected list stops at a
      candidate that is not a date, and the exception is that candidate's. */
  lemma {:induction false} LoopRaises(candidate: nat -> Result<Date>, past: Date -> bool, bound: nat, step: nat)
    requires forall j: nat :: candidate(j).Success? ==> j < bound
    requires Loop(candidate, past, bound, step, false).Failure?
    ensures Loop(candidate, past, bound, step, true).Success?
    ensures var xs := Loop(candidate, past, bound, step, true).value;
      candidate(step + |xs|) == Failure(Loop(candidate, past, bound, step, false).error)
    decreases bound - step
  {
    var c := candidate(step);
    if c.Failure? {
      assert step + 0 == step;
    } else if !past(c.value) {
      LoopRaises(candidate, past, bound, step + 1);
      var ys := Loop(candidate, past, bound, step + 1, true).value;
      assert step + |[c.value] + ys| == step + 1 + |ys|;
    }
  }

  /** Where the code as written returns a list, the corrected loop returns the same one. */
  lemma LoopAgree(candidate: nat -> Result<Date>, past: Date -> bool, bound: nat, step: nat)
    requires forall j: nat :: candidate(j).Success? ==> j < bound
    requires Loop(candidate, past, bound, step, false).Success?
    ensures Loop(candidate, past, bound, step, true) == Loop(candidate, past, bound, step, false)
  {
    LoopElements(candidate, past, bound, step, false);
    LoopFromElements(candidate, past, bound, step, true, Loop(candidate, past, bound, step, false).value);
  }

  /** The two differ only where the corrected list stops at a candidate
      that is not a date: when it stops at one past the end, the code as
      written returns it too. */
  lemma LoopAgreeWhenPast(candidate: nat -> Result<Date>, past: Date -> bool, bound: nat, step: nat)
    requires forall j: nat :: candidate(j).Success? ==> j < bound
    requires Loop(candidate, past, bound, step, true).Success?
    requires candidate(step + |Loop(candidate, past, bound, step, true).value|).Success?
    ensures Loop(candidate, past, bound, step, false) == Loop(candidate, past, bound, step, true)
  {
    LoopElements(candidate, past, bound, step, true);
    LoopFromElements(candidate, past, bound, step, false, Loop(candidate, past, bound, step, true).value);
  }

  /** `LoopElements` for the whole loop, from its first step. */
  lemma LoopResult(candidate: nat -> Result<Date>, past: Date -> bool, bound: nat, stopOutOfRange: bool, xs: seq<Date>)
    requires forall j: nat :: candidate(j).Success? ==> j < bound
    requires Loop(candidate, past, bound, 0, stopOutOfRange) == Success(xs)
    ensures Candidates(candidate, past, 0, xs) && Ends(candidate, past, |xs|, stopOutOfRange)
  {
    LoopElements(candidate, past, bound, 0, stopOutOfRange);
    assert 0 + |xs| == |xs|;
  }

  /** `LoopRaises` for the whole loop, from its first step. */
  lemma LoopRaisesAt(candidate: nat -> Result<Date>, past: Date -> bool, bound: nat, err: Error, xs: seq<Date>)
    requires forall j: nat :: candidate(j).Success? ==> j < bound
    requires Loop(candidate, past, bound, 0, false) == Failure(err)
    requires Loop(candidate, past, bound, 0, true) == Success(xs)
    ensures candidate(|xs|) == Failure(err)
  {
    LoopRaises(candidate, past, bound, 0);
    assert 0 + |xs| == |xs|;
  }

  // ---------------------------------------------------------------------
  // `generate_date_array`
  // ---------------------------------------------------------------------

  /** The start and end dates are out of order for the sign of `interval`. */
  predicate Mismatched(interval: int, s: Date, e: Date) {
    (interval > 0 && Before(e, s)) || (interval < 0 && Before(s, e))
  }

  /** With `interval` zero there are no dates; otherwise a text that does
      not parse raises its `ValueError`, the start date first. */
  lemma GeneratedParses(dateStart: DateInput, dateEnd: DateInput, interval: int, part: DatePart, stopOutOfRange: bool)
    requires ValidInput(dateStart) && ValidInput(dateEnd)
    ensures interval == 0 ==> Generated(dateStart, dateEnd, interval, part, stopOutOfRange) == Success([])
    ensures interval != 0 && ParseDate(dateStart).Failure? ==>
      Generated(dateStart, dateEnd, interval, part, stopOutOfRange) == Failure(ParseDate(dateStart).error)
    ensures interval != 0 && ParseDate(dateStart).Success? && ParseDate(dateEnd).Failure? ==>
      Generated(dateStart, dateEnd, interval, part, stopOutOfRange) == Failure(ParseDate(dateEnd).error)
    ensures interval != 0 && ParseDate(dateStart).Success? && ParseDate(dateEnd).Success? ==>
      Generated(dateStart, dateEnd, interval, part, stopOutOfRange)
        == Between(ParseDate(dateStart).value, ParseDate(dateEnd).value, interval, part, stopOutOfRange)
  {
  }

  /** Between two dates in order, the loop runs over the candidates
      `date_start` plus multiples of `interval` parts. */
  lemma BetweenLoops(s: Date, e: Date, interval: int, part: DatePart, stopOutOfRange: bool)
    requires Valid(s) && Valid(e) && interval != 0
    requires s != e && !Mismatched(interval, s, e)
    ensures forall j: nat :: Candidate(s, part, interval)(j).Success? ==> j < MaxOrdinal
    ensures Between(s, e, interval, part, stopOutOfRange)
      == Loop(Candidate(s, part, interval), PastEnd(interval, e), MaxOrdinal, 0, stopOutOfRange)
  {
    CandidateBound(s, part, interval);
  }

  /** Every date returned is a candidate on this side of the end, in step
      order, the first being `date_start`; the list is empty exactly when
      the two dates are out of order. */
  lemma BetweenElements(s: Date, e: Date, interval: int, part: DatePart, stopOutOfRange: bool)
    requires Valid(s) && Valid(e) && interval != 0
    requires Between(s, e, interval, part, stopOutOfRange).Success?
    ensures var xs := Between(s, e, interval, part, stopOutOfRange).value;
      && (xs == [] <==> Mismatched(interval, s, e))
      && (xs != [] ==> xs[0] == s)
      && (forall k :: 0 <= k < |xs| ==> Shift(s, part, interval * k) == Success(xs[k]) && !Past(interval, xs[k], e))
  {
    var xs := Between(s, e, interval, part, stopOutOfRange).value;
    ShiftZero(s, part);
    if s != e && !Mismatched(interval, s, e) {
      BetweenLoops(s, e, interval, part, stopOutOfRange);
      var candidate, past := Candidate(s, part, interval), PastEnd(interval, e);
      LoopElements(candidate, past, MaxOrdinal, 0, stopOutOfRange);
      assert candidate(0) == Success(s) && !past(s);
      forall k | 0 <= k < |xs|
        ensures Shift(s, part, interval * k) == Success(xs[k]) && !Past(interval, xs[k], e)
      {
        assert candidate(0 + k) == Success(xs[k]) && !past(xs[k]);
      }
    }
  }

  /** The loop stops at the first candidate past the end or, corrected, at
      the first that is not a date: no date of the range is missing. */
  lemma BetweenStops(s: Date, e: Date, interval: int, part: DatePart, stopOutOfRange: bool)
    requires Valid(s) && Valid(e) && interval != 0 && s != e && !Mismatched(interval, s, e)
    requires Between(s, e, interval, part, stopOutOfRange).Success?
    ensures Ends(Candidate(s, part, interval), PastEnd(interval, e), |Between(s, e, interval, part, stopOutOfRange).value|, stopOutOfRange)
  {
    BetweenLoops(s, e, interval, part, stopOutOfRange);
    LoopResult(Candidate(s, part, interval), PastEnd(interval, e), MaxOrdinal, stopOutOfRange, Between(s, e, interval, part, stopOutOfRange).value);
  }

  /** The dates rise strictly for a positive `interval` and fall strictly
      for a negative one. */
  lemma BetweenOrdered(s: Date, e: Date, interval: int, part: DatePart, stopOutOfRange: bool)
    requires Valid(s) && Valid(e) && interval != 0
    requires Between(s, e, interval, part, stopOutOfRange).Success?
    ensures var xs := Between(s, e, interval, part, stopOutOfRange).value;
      forall i, j :: 0 <= i < j < |xs| ==> if interval > 0 then Before(xs[i], xs[j]) else Before(xs[j], xs[i])
  {
    BetweenElements(s, e, interval, part, stopOutOfRange);
    var xs := Between(s, e, interval, part, stopOutOfRange).value;
    forall i, j | 0 <= i < j < |xs|
      ensures if interval > 0 then Before(xs[i], xs[j]) else Before(xs[j], xs[i])
    {
      OffsetsOrdered(interval, i, j);
      if interval > 0 {
        ShiftMonotone(s, part, interval * i, interval * j);
      } else {
        ShiftMonotone(s, part, interval * j, interval * i);
      }
    }
  }

  lemma OffsetsOrdered(interval: int, i: int, j: int)
    requires interval != 0 && i < j
    ensures interval > 0 ==> interval * i < interval * j
    ensures interval < 0 ==> interval * j < interval * i
  {
    assert interval * j - interval * i == interval * (j - i);
  }

  /** Every date returned lies between `date_start` and `date_end`, both included. */
  lemma BetweenWithin(s: Date, e: Date, interval: int, part: DatePart, stopOutOfRange: bool)
    requires Valid(s) && Valid(e) && interval != 0
    requires Between(s, e, interval, part, stopOutOfRange).Success?
    ensures var xs := Between(s, e, interval, part, stopOutOfRange).value;
      forall k :: 0 <= k < |xs| ==>
        if interval > 0 then !Before(xs[k], s) && !Before(e, xs[k]) else !Before(s, xs[k]) && !Before(xs[k], e)
  {
    BetweenElements(s, e, interval, part, stopOutOfRange);
    BetweenOrdered(s, e, interval, part, stopOutOfRange);
  }

  /** Corrected, the dates always make a list. */
  lemma BetweenTotal(s: Date, e: Date, interval: int, part: DatePart)
    requires Valid(s) && Valid(e) && interval != 0
    ensures Between(s, e, interval, part, true).Success?
  {
    if s != e && !Mismatched(interval, s, e) {
      BetweenLoops(s, e, interval, part, true);
      LoopTotal(Candidate(s, part, interval), PastEnd(interval, e), MaxOrdinal, 0);
    }
  }

  /** The corrected function raises only for a text that does not parse. */
  lemma DateArrayErrors(dateStart: DateInput, dateEnd: DateInput, interval: int, part: DatePart)
    requires ValidInput(dateStart) && ValidInput(dateEnd)
    ensures DateArray(dateStart, dateEnd, interval, part).Failure?
      <==> interval != 0 && (ParseDate(dateStart).Failure? || ParseDate(dateEnd).Failure?)
  {
    if interval != 0 && ParseDate(dateStart).Success? && ParseDate(dateEnd).Success? {
      BetweenTotal(ParseDate(dateStart).value, ParseDate(dateEnd).value, interval, part);
    }
  }

  /** Where the code as written returns a list between two parsed dates,
      the corrected function returns the same one. */
  lemma AsWrittenAgrees(s: Date, e: Date, interval: int, part: DatePart)
    requires Valid(s) && Valid(e) && interval != 0
    requires Between(s, e, interval, part, false).Success?
    ensures Between(s, e, interval, part, true) == Between(s, e, interval, part, false)
  {
    if s != e && !Mismatched(interval, s, e) {
      BetweenLoops(s, e, interval, part, false);
      BetweenLoops(s, e, interval, part, true);
      LoopAgree(Candidate(s, part, interval), PastEnd(interval, e), MaxOrdinal, 0);
    }
  }

  /** Where the corrected list stops at a candidate past the end, the code
      as written returns it too. */
  lemma AsWrittenAgreesWhenPast(s: Date, e: Date, interval: int, part: DatePart)
    requires Valid(s) && Valid(e) && interval != 0
    requires Between(s, e, interval, part, true).Success?
    requires Candidate(s, part, interval)(|Between(s, e, interval, part, true).value|).Success?
    ensures Between(s, e, interval, part, false) == Between(s, e, interval, part, true)
  {
    if Between(s, e, interval, part, false).Failure? {
      AsWrittenRaises(s, e, interval, part);
    } else {
      AsWrittenAgrees(s, e, interval, part);
    }
  }

  /** Where the code as written raises, the corrected list stops at a
      candidate outside years 1 to 9999, whose exception it is. */
  lemma AsWrittenRaises(s: Date, e: Date, interval: int, part: DatePart)
    requires Valid(s) && Valid(e) && interval != 0
    requires Between(s, e, interval, part, false).Failure?
    ensures Between(s, e, interval, part, true).Success?
    ensures Candidate(s, part, interval)(|Between(s, e, interval, part, true).value|)
      == Failure(Between(s, e, interval, part, false).error)
  {
    BetweenTotal(s, e, interval, part);
    BetweenLoops(s, e, interval, part, false);
    BetweenLoops(s, e, interval, part, true);
    LoopRaisesAt(Candidate(s, part, interval), PastEnd(interval, e), MaxOrdinal,
      Between(s, e, interval, part, false).error, Between(s, e, interval, part, true).value);
  }

  // ---------------------------------------------------------------------
  // What the dates are, part by part
  // ---------------------------------------------------------------------

  /** The `k`-th date is `k * interval` days, weeks, months, quarters or
      years from the start, a month step clamping the start's day to the
      length of the month reached. */
  lemma BetweenOffsets(s: Date, e: Date, interval: int, part: DatePart, stopOutOfRange: bool)
    requires Valid(s) && Valid(e) && interval != 0
    requires Between(s, e, interval, part, stopOutOfRange).Success?
    ensures var xs := Between(s, e, interval, part, stopOutOfRange).value;
      forall k :: 0 <= k < |xs| ==>
        Valid(xs[k]) && (match part
          case DAY => Ordinal(xs[k]) == Ordinal(s) + interval * k
          case WEEK => Ordinal(xs[k]) == Ordinal(s) + 7 * (interval * k)
          case MONTH => MonthIndex(xs[k]) == MonthIndex(s) + interval * k
                        && xs[k].day == Clamped(xs[k].year, xs[k].month, s.day)
          case QUARTER => MonthIndex(xs[k]) == MonthIndex(s) + interval * k * 3
                          && xs[k].day == Clamped(xs[k].year, xs[k].month, s.day)
          case YEAR => xs[k].year == s.year + interval * k && xs[k].month == s.month
                       && xs[k].day == Clamped(xs[k].year, xs[k].month, s.day))
  {
    BetweenElements(s, e, interval, part, stopOutOfRange);
    var xs := Between(s, e, interval, part, stopOutOfRange).value;
    forall k | 0 <= k < |xs|
      ensures Valid(xs[k]) && ShiftedBy(s, part, interval * k, xs[k])
    {
      ShiftOffset(s, part, interval * k, xs[k]);
    }
  }

  /** How far a successful `Shift` by `m` moves the start, part by part. */
  predicate ShiftedBy(s: Date, part: DatePart, m: int, x: Date)
    requires Valid(s) && Valid(x)
  {
    match part
    case DAY => Ordinal(x) == Ordinal(s) + m
    case WEEK => Ordinal(x) == Ordinal(s) + 7 * m
    case MONTH => MonthIndex(x) == MonthIndex(s) + m && x.day == Clamped(x.year, x.month, s.day)
    case QUARTER => MonthIndex(x) == MonthIndex(s) + m * 3 && x.day == Clamped(x.year, x.month, s.day)
    case YEAR => x.year == s.year + m && x.month == s.month && x.day == Clamped(x.year, x.month, s.day)
  }

  lemma ShiftOffset(s: Date, part: DatePart, m: int, x: Date)
    requires Valid(s) && Shift(s, part, m) == Success(x)
    ensures Valid(x) && ShiftedBy(s, part, m, x)
  {
  }

  /** A day candidate is a `timedelta` of `interval * j` days. */
  lemma DayCandidate(s: Date, interval: int, j: nat)
    requires Valid(s)
    ensures Candidate(s, DAY, interval)(j) == PlusDays(s, interval * j)
  {
  }

  /** Day by day from a date up to a later one, the list holds each day
      once: `Ordinal(e) - Ordinal(s) + 1` dates, one day apart. */
  lemma BetweenDaily(s: Date, e: Date, stopOutOfRange: bool)
    requires Valid(s) && Valid(e) && !Before(e, s)
    requires Between(s, e, 1, DAY, stopOutOfRange).Success?
    ensures var xs := Between(s, e, 1, DAY, stopOutOfRange).value;
      && |xs| == Ordinal(e) - Ordinal(s) + 1
      && forall k :: 0 <= k < |xs| ==> Valid(xs[k]) && Ordinal(xs[k]) == Ordinal(s) + k
  {
    var xs := Between(s, e, 1, DAY, stopOutOfRange).value;
    BetweenElements(s, e, 1, DAY, stopOutOfRange);
    BetweenOffsets(s, e, 1, DAY, stopOutOfRange);
    BetweenWithin(s, e, 1, DAY, stopOutOfRange);
    var n := |xs|;
    assert n > 0;
    OrdinalOrder(e, xs[n - 1]);
    if s != e {
      BetweenStops(s, e, 1, DAY, stopOutOfRange);
      DayCandidate(s, 1, n);
      OrdinalRange(e);
      DailyStop(s, e, n, stopOutOfRange);
    }
  }

  /** The day after the last one returned is past the end or, corrected, no date. */
  lemma DailyStop(s: Date, e: Date, n: nat, stopOutOfRange: bool)
    requires Valid(s) && Valid(e) && Ordinal(s) + n - 1 <= Ordinal(e) <= MaxOrdinal
    requires var c := PlusDays(s, 1 * n);
      (c.Failure? && stopOutOfRange) || (c.Success? && Past(1, c.value, e))
    ensures n == Ordinal(e) - Ordinal(s) + 1
  {
    var c := PlusDays(s, n);
    if c.Success? {
      OrdinalOrder(e, c.value);
    }
  }

  /** Corrected, a daily list always comes out; as written, it does when
      the end date is not the last day of the calendar. */
  lemma BetweenDailySucceeds(s: Date, e: Date, stopOutOfRange: bool)
    requires Valid(s) && Valid(e) && !Before(e, s)
    requires stopOutOfRange || Ordinal(e) < MaxOrdinal
    ensures Between(s, e, 1, DAY, stopOutOfRange).Success?
  {
    BetweenTotal(s, e, 1, DAY);
    if !stopOutOfRange {
      BetweenDaily(s, e, true);
      var n := |Between(s, e, 1, DAY, true).value|;
      DayCandidate(s, 1, n);
      AsWrittenAgreesWhenPast(s, e, 1, DAY);
    }
  }

  /** A year day by day, from 1 January to 31 December: 366 dates in a leap
      year and 365 otherwise. */
  lemma YearLength(y: int, stopOutOfRange: bool)
    requires MinYear <= y <= MaxYear && (stopOutOfRange || y < MaxYear)
    ensures var r := Between(Date(y, 1, 1), Date(y, 12, 31), 1, DAY, stopOutOfRange);
      && r.Success? && |r.value| == DaysInYear(y)
      && (|r.value| == 366 <==> IsLeap(y))
  {
    var s, e := Date(y, 1, 1), Date(y, 12, 31);
    YearEnd(y);
    if !stopOutOfRange {
      OrdinalOrder(e, Date(MaxYear, 12, 31));
      OrdinalRange(Date(MaxYear, 12, 31));
    }
    BetweenDailySucceeds(s, e, stopOutOfRange);
    BetweenDaily(s, e, stopOutOfRange);
  }

  /** Corrected, daily stepping over the last two days of the calendar
      returns both. */
  lemma LastTwoDays(s: Date, e: Date)
    requires s == Date(9999, 12, 30) && e == Date(9999, 12, 31)
    ensures Valid(s) && Valid(e)
    ensures Between(s, e, 1, DAY, true) == Success([s, e])
  {
    YearEnd(MaxYear);
    LastOrdinal();
    assert Ordinal(e) == MaxOrdinal && Ordinal(s) == MaxOrdinal - 1;
    BetweenDailySucceeds(s, e, true);
    BetweenDaily(s, e, true);
    var xs := Between(s, e, 1, DAY, true).value;
    assert |xs| == 2;
    OrdinalInjective(xs[0], s);
    OrdinalInjective(xs[1], e);
    PairList(xs, s, e);
  }

  lemma PairList<T>(xs: seq<T>, a: T, b: T)
    requires |xs| == 2 && xs[0] == a && xs[1] == b
    ensures xs == [a, b]
  {
  }

  /** As written, the same stepping computes the day after the last one and raises. */
  lemma LastTwoDaysAsWritten(s: Date, e: Date)
    requires s == Date(9999, 12, 30) && e == Date(9999, 12, 31)
    ensures Valid(s) && Valid(e)
    ensures Between(s, e, 1, DAY, false) == Failure(OverflowError("date value out of range"))
  {
    LastTwoDays(s, e);
    YearEnd(MaxYear);
    LastOrdinal();
    assert PlusDays(s, 2) == Failure(OverflowError("date value out of range"));
    DayCandidate(s, 1, 2);
    if Between(s, e, 1, DAY, false).Success? {
      AsWrittenAgrees(s, e, 1, DAY);
      BetweenStops(s, e, 1, DAY, false);
    } else {
      AsWrittenRaises(s, e, 1, DAY);
    }
  }

  /** The discrepancy: from 30 December 9999 to 31 December 9999 by days,
      the code as written computes the day after the end, which is no
      date, and raises; corrected, it returns both days. */
  lemma EndOfCalendar(s: Date, e: Date)
    requires s == Date(9999, 12, 30) && e == Date(9999, 12, 31)
    ensures Valid(s) && Valid(e)
    ensures DateArray(DateObject(s), DateObject(e), 1, DAY) == Success([s, e])
    ensures DateArrayAsWritten(DateObject(s), DateObject(e), 1, DAY) == Failure(OverflowError("date value out of range"))
  {
    LastTwoDays(s, e);
    LastTwoDaysAsWritten(s, e);
    GeneratedParses(DateObject(s), DateObject(e), 1, DAY, true);
    GeneratedParses(DateObject(s), DateObject(e), 1, DAY, false);
  }
}
