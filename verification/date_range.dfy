/** The date-range enumerator of a project: every day from `start` to `end`
    inclusive, `step` days apart. Dates are day ordinals, so adding a
    `timedelta(days = k)` is adding `k`. */
module DateRange {

  /** A calendar date, as the number of days since a fixed origin. */
  type Date = int

  /** `r` is the range from `start` to `end` by `step`: empty exactly when
      `start > end`, otherwise it begins at `start`, every two neighbours are
      `step` apart, every element lies in `[start, end]`, and the next step
      after the last element would pass `end`. */
  ghost predicate IsDateRange(r: seq<Date>, start: Date, end: Date, step: int) {
    && (r == [] <==> start > end)
    && (r != [] ==> r[0] == start && r[|r| - 1] + step > end)
    && (forall i :: 0 <= i < |r| ==> start <= r[i] <= end)
    && (forall i :: 0 <= i < |r| - 1 ==> StepAt(r, i, step))
  }

  /** Neighbours at positions `i` and `i + 1` are `step` apart. */
  predicate StepAt(r: seq<int>, i: int, step: int)
    requires 0 <= i < |r| - 1
  {
    r[i + 1] == r[i] + step
  }

  /** The list of dates covering `[start, end]`. The source loop only stops
      for a positive step, hence the precondition. */
  function Range(start: Date, end: Date, step: int): seq<Date>
    requires step > 0
    decreases end - start + step
  {
    if start > end then [] else [start] + Range(start + step, end, step)
  }

  /** The loop of the source: append the current date and advance by
      `dayDelta` while the date has not passed `end`. */
  method GetDateRange(start: Date, end: Date, dayDelta: int) returns (dates: seq<Date>)
    requires dayDelta > 0
    ensures dates == Range(start, end, dayDelta)
  {
    dates := [];
    var date := start;
    while date <= end
      invariant dates + Range(date, end, dayDelta) == Range(start, end, dayDelta)
      decreases end - date
    {
      RangeStep(dates, date, end, dayDelta, Range(start, end, dayDelta));
      dates := dates + [date];
      date := date + dayDelta;
    }
  }

  /** One turn of the loop keeps `dates` followed by the rest of the range
      equal to the whole range. */
  lemma RangeStep(dates: seq<Date>, date: Date, end: Date, step: int, whole: seq<Date>)
    requires step > 0 && date <= end
    requires dates + Range(date, end, step) == whole
    ensures (dates + [date]) + Range(date + step, end, step) == whole
  {
    assert Range(date, end, step) == [date] + Range(date + step, end, step);
    assert dates + ([date] + Range(date + step, end, step)) == (dates + [date]) + Range(date + step, end, step);
  }

  /** `Range` meets its description. */
  lemma {:induction false} RangeIsDateRange(start: Date, end: Date, step: int)
    requires step > 0
    ensures IsDateRange(Range(start, end, step), start, end, step)
    decreases end - start + step
  {
    if start <= end {
      var rest := Range(start + step, end, step);
      var r := [start] + rest;
      RangeIsDateRange(start + step, end, step);
      forall i | 0 <= i < |r| - 1
        ensures StepAt(r, i, step)
      {
        if i > 0 {
          assert StepAt(rest, i - 1, step);
        }
      }
    }
  }

  /** A sequence meeting the description of a range with at least two
      elements continues, after its first element, as the range from
      `start + step`. */
  lemma SuffixIsDateRange(r: seq<Date>, start: Date, end: Date, step: int)
    requires step > 0 && start + step <= end
    requires IsDateRange(r, start, end, step)
    ensures |r| > 1 && IsDateRange(r[1..], start + step, end, step)
  {
    var rest := r[1..];
    assert |r| > 1;
    assert StepAt(r, 0, step);
    ChainIncreasing(r, step);
    forall i | 0 <= i < |rest|
      ensures start + step <= rest[i] <= end
    {
      assert rest[i] == r[i + 1];
    }
    forall i | 0 <= i < |rest| - 1
      ensures StepAt(rest, i, step)
    {
      assert StepAt(r, i + 1, step);
      assert rest[i + 1] == r[i + 2] && rest[i] == r[i + 1];
    }
  }

  /** A sequence meeting the description of a range is that range. */
  lemma {:induction false} DateRangeIsRange(r: seq<Date>, start: Date, end: Date, step: int)
    requires step > 0
    requires IsDateRange(r, start, end, step)
    ensures r == Range(start, end, step)
    decreases end - start + step
  {
    if start <= end {
      if start + step <= end {
        SuffixIsDateRange(r, start, end, step);
        DateRangeIsRange(r[1..], start + step, end, step);
      } else {
        ChainIncreasing(r, step);
        assert |r| == 1;
      }
      assert r == [start] + r[1..];
    }
  }

  /** `IsDateRange` is an independent definition of `Range`: the range is
      the one and only sequence meeting the description. */
  lemma RangeUnique(r: seq<Date>, start: Date, end: Date, step: int)
    requires step > 0
    ensures IsDateRange(r, start, end, step) <==> r == Range(start, end, step)
  {
    RangeIsDateRange(start, end, step);
    if IsDateRange(r, start, end, step) {
      DateRangeIsRange(r, start, end, step);
    }
  }

  /** Neighbours `step` apart with a positive step make a chain in which
      every later element is at least one step above every earlier one. */
  lemma {:induction false} ChainIncreasing(s: seq<int>, step: int)
    requires step > 0
    requires forall i :: 0 <= i < |s| - 1 ==> StepAt(s, i, step)
    ensures forall i, j :: 0 <= i < j < |s| ==> s[i] + step <= s[j]
  {
    if |s| > 1 {
      var t := s[..|s| - 1];
      forall i | 0 <= i < |t| - 1
        ensures StepAt(t, i, step)
      {
        assert StepAt(s, i, step);
      }
      ChainIncreasing(t, step);
      forall i, j | 0 <= i < j < |s|
        ensures s[i] + step <= s[j]
      {
        assert StepAt(s, j - 1, step);
        if j < |s| - 1 {
          assert t[i] == s[i] && t[j] == s[j];
        } else if i < j - 1 {
          assert t[i] == s[i] && t[j - 1] == s[j - 1];
        }
      }
    }
  }

  /** In such a chain the element at position `i` is `i` steps above the first. */
  lemma {:induction false} ChainFormula(s: seq<int>, step: int)
    requires forall i :: 0 <= i < |s| - 1 ==> StepAt(s, i, step)
    ensures forall i :: 0 <= i < |s| ==> s[i] == s[0] + i * step
  {
    if |s| > 1 {
      var t := s[..|s| - 1];
      forall i | 0 <= i < |t| - 1
        ensures StepAt(t, i, step)
      {
        assert StepAt(s, i, step);
      }
      ChainFormula(t, step);
      var n := |s| - 1;
      assert t[0] == s[0];
      forall i | 0 <= i < |s|
        ensures s[i] == s[0] + i * step
      {
        if i < n {
          assert t[i] == s[i];
        } else {
          assert StepAt(s, n - 1, step);
          assert s[n - 1] == t[n - 1] == s[0] + (n - 1) * step;
          assert (n - 1) * step + step == n * step;
        }
      }
    }
  }

  /** With a positive step the range is strictly increasing. */
  lemma RangeStrictlyIncreasing(start: Date, end: Date, step: int)
    requires step > 0
    ensures forall i, j :: 0 <= i < j < |Range(start, end, step)| ==>
      Range(start, end, step)[i] < Range(start, end, step)[j]
  {
    RangeIsDateRange(start, end, step);
    ChainIncreasing(Range(start, end, step), step);
  }

  /** The `i`-th date of the range is `start + i * step`. */
  lemma RangeElement(start: Date, end: Date, step: int)
    requires step > 0
    ensures forall i :: 0 <= i < |Range(start, end, step)| ==>
      Range(start, end, step)[i] == start + i * step
  {
    RangeIsDateRange(start, end, step);
    ChainFormula(Range(start, end, step), step);
  }

  /** With the default step of one day the range lists every day of the
      window exactly once: `end - start + 1` dates from `start` to `end`. */
  lemma RangeUnitStep(start: Date, end: Date)
    requires start <= end
    ensures |Range(start, end, 1)| == end - start + 1
    ensures Range(start, end, 1)[0] == start
    ensures Range(start, end, 1)[|Range(start, end, 1)| - 1] == end
    ensures forall i :: 0 <= i < |Range(start, end, 1)| ==> Range(start, end, 1)[i] == start + i
  {
    RangeIsDateRange(start, end, 1);
    RangeElement(start, end, 1);
  }

  /** With a positive step and `start <= end` the range holds
      `(end - start) / step + 1` dates. */
  lemma RangeLength(start: Date, end: Date, step: int)
    requires step > 0 && start <= end
    ensures |Range(start, end, step)| == (end - start) / step + 1
  {
    var r := Range(start, end, step);
    RangeIsDateRange(start, end, step);
    RangeElement(start, end, step);
    var n := |r| - 1;
    assert n * step <= end - start < n * step + step;
    DivUnique(end - start, step, n);
  }

  /** Membership: a date is listed exactly when it lies in the window and is
      a whole number of steps after `start`. */
  lemma {:induction false} RangeMembership(start: Date, end: Date, step: int, d: Date)
    requires step > 0
    ensures d in Range(start, end, step) <==> start <= d <= end && (d - start) % step == 0
    decreases end - start + step
  {
    if start <= end {
      RangeMembership(start + step, end, step, d);
      assert d in Range(start, end, step) <==> d == start || d in Range(start + step, end, step);
      ModShift(d - start, step);
      if start < d < start + step {
        ModUnique(d - start, step, 0, d - start);
      }
    }
  }

  /** Shifting by one step leaves the remainder unchanged. */
  lemma ModShift(x: int, step: int)
    requires step > 0
    ensures (x - step) % step == x % step
  {
    ModUnique(x - step, step, x / step - 1, x % step);
  }

  /** The remainder is the unique `m` in `[0, step)` with `x == q * step + m`. */
  lemma ModUnique(x: int, step: int, q: int, m: int)
    requires step > 0 && 0 <= m < step && x == q * step + m
    ensures x % step == m
  {
    var q' := x / step;
    var m' := x % step;
    assert x == q' * step + m';
    if q' > q {
      MulMonotone(q + 1, q', step);
    } else if q' < q {
      MulMonotone(q' + 1, q, step);
    }
    assert q' == q;
  }

  lemma MulMonotone(a: int, b: int, step: int)
    requires a <= b && step > 0
    ensures a * step <= b * step
  {
    assert b * step == a * step + (b - a) * step;
  }

  lemma DivUnique(x: int, step: int, q: int)
    requires step > 0 && q * step <= x < q * step + step
    ensures x / step == q
  {
    var d := x / step;
    var m := x % step;
    assert x == d * step + m;
    if d > q {
      MulMonotone(q + 1, d, step);
    } else if d < q {
      MulMonotone(d + 1, q, step);
    }
  }
}
