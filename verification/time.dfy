/** Sampling rates, time windows and the two timeseries representations of
    `openmotorsport/time.py`. Times are integer milliseconds; sample values
    are reals. */
module Time {
  import opened Wrappers
  import opened Arith

  /** Milliseconds per second: the unit of every time value. */
  const BASE_TIME: int := 1000

  // ---------------------------------------------------------------------
  // Frequency
  // ---------------------------------------------------------------------

  /** A sampling rate in Hz. The interval is derived from the rate, so two
      frequencies are equal exactly when their rates are. */
  datatype Frequency = Frequency(rate: int) {

    predicate Valid() {
      rate > 0
    }

    /** Whole milliseconds between two samples: the most that fit `rate`
        times into one second. */
    function Interval(): (r: int)
      requires Valid()
      ensures 0 <= r && rate * r <= BASE_TIME < rate * (r + 1)
    {
      IntervalBounds(rate);
      BASE_TIME / rate
    }
  }

  /** `Frequency(rate)`: the interval is the largest whole number of
      milliseconds that fits `rate` times into one second. */
  function MakeFrequency(rate: int): (r: Result<Frequency>)
    ensures r.Success? <==> rate > 0
    ensures rate == 0 ==> r == Failure(ZeroDivisionError)
    ensures r.Success? ==> r.value.rate == rate && r.value.Valid()
    ensures r.Success? ==>
      0 <= rate * r.value.Interval() <= BASE_TIME < rate * (r.value.Interval() + 1)
  {
    if rate == 0 then Failure(ZeroDivisionError)
    else if rate < 0 then Failure(ValueError)
    else
      IntervalBounds(rate);
      Success(Frequency(rate))
  }

  lemma IntervalBounds(rate: int)
    requires rate > 0
    ensures 0 <= rate * (BASE_TIME / rate) <= BASE_TIME < rate * (BASE_TIME / rate + 1)
  {
    var q := BASE_TIME / rate;
    DivBounds(BASE_TIME, rate);
    if q < 0 {
      MulMono(q + 1, 0, rate);
    }
    MulMono(0, q, rate);
  }

  /** `Frequency.from_interval(interval)`: the rate is the number of whole
      intervals in one second. Intervals above one second give rate 0. */
  function FromInterval(interval: int): (r: Result<Frequency>)
    ensures r.Success? <==> 1 <= interval <= BASE_TIME
    ensures interval == 0 || interval > BASE_TIME ==> r == Failure(ZeroDivisionError)
    ensures r.Success? ==>
      interval * r.value.rate <= BASE_TIME < interval * (r.value.rate + 1)
  {
    if interval == 0 then Failure(ZeroDivisionError)
    else if interval < 0 then Failure(ValueError)
    else
      DivBounds(BASE_TIME, interval);
      if interval > BASE_TIME then
        DivBracket(BASE_TIME, interval, 0);
        MakeFrequency(BASE_TIME / interval)
      else
        MulMono(1, BASE_TIME / interval + 1, interval);
        MakeFrequency(BASE_TIME / interval)
  }

  /** Going from a rate to its interval and back recovers the rate exactly
      when the rate is at most 1000 Hz and the truncated remainder is
      smaller than the interval. Above 1000 Hz the interval is 0 and
      `from_interval` divides by zero. */
  lemma FrequencyRoundTrip(f: Frequency)
    requires f.Valid()
    ensures FromInterval(f.Interval()) == Success(f) <==>
      f.rate <= BASE_TIME && BASE_TIME % f.rate < f.Interval()
    ensures FromInterval(f.Interval()).Success? <==> f.rate <= BASE_TIME
    ensures f.rate > BASE_TIME ==> FromInterval(f.Interval()) == Failure(ZeroDivisionError)
    ensures f.rate <= BASE_TIME ==> FromInterval(f.Interval()).value.rate >= f.rate
  {
    if f.rate <= BASE_TIME {
      RateBack(f.rate);
    }
  }

  /** The integer arithmetic behind the round trip: the interval of a rate
      up to 1000 Hz is a whole millisecond, and dividing it back into one
      second never loses rate. */
  lemma RateBack(r: int)
    requires 1 <= r <= BASE_TIME
    ensures 1 <= BASE_TIME / r <= BASE_TIME
    ensures BASE_TIME / (BASE_TIME / r) >= r
    ensures BASE_TIME / (BASE_TIME / r) == r <==> BASE_TIME % r < BASE_TIME / r
  {
    IntervalOfRate(r);
    QuotientBack(r, BASE_TIME / r, BASE_TIME % r);
  }

  /** If one second is `r` intervals of `i` plus a remainder `m`, dividing
      it by `i` gives at least `r`, and exactly `r` when `m < i`. */
  lemma QuotientBack(r: int, i: int, m: int)
    requires r >= 1 && i >= 1 && 0 <= m && BASE_TIME == r * i + m
    ensures BASE_TIME / i >= r
    ensures BASE_TIME / i == r <==> m < i
  {
    var q := BASE_TIME / i;
    DivBounds(BASE_TIME, i);
    MulCancelLt(r, q + 1, i);
    if m < i {
      DivUnique(BASE_TIME, i, r, m);
    } else {
      assert i * (r + 1) == r * i + i;
      MulCancelLt(r + 1, q + 1, i);
    }
  }

  /** A rate up to 1000 Hz has an interval of 1 to 1000 ms, and the rate
      times the interval falls short of one second by the remainder. */
  lemma IntervalOfRate(r: int)
    requires 1 <= r <= BASE_TIME
    ensures 1 <= BASE_TIME / r <= BASE_TIME
    ensures BASE_TIME == r * (BASE_TIME / r) + BASE_TIME % r
  {
    var i := BASE_TIME / r;
    DivBounds(BASE_TIME, r);
    MulCancelLt(1, i + 1, r);
    MulAtLeast(r, i);
  }

  /** Rates that divide one second survive the round trip. */
  lemma DivisorRateRoundTrip(f: Frequency)
    requires f.Valid() && f.rate <= BASE_TIME && BASE_TIME % f.rate == 0
    ensures FromInterval(f.Interval()) == Success(f)
  {
    FrequencyRoundTrip(f);
    DivBounds(BASE_TIME, f.rate);
    if f.Interval() == 0 {
      MulMono(f.rate, BASE_TIME, 0);
    }
  }

  /** Every rate up to 31 Hz survives the round trip. */
  lemma LowRateRoundTrip(f: Frequency)
    requires 1 <= f.rate <= 31
    ensures FromInterval(f.Interval()) == Success(f)
  {
    FrequencyRoundTrip(f);
    DivBounds(BASE_TIME, f.rate);
    MulMono(f.rate, 31, 32);
    if f.Interval() < 32 {
      MulMono(f.Interval() + 1, 32, f.rate);
      MulMono(f.rate, 31, 32);
    }
  }

  /** 300 Hz has interval 3 ms, which reads back as 333 Hz. */
  lemma RoundTripLosesRate()
    ensures Frequency(300).Interval() == 3
    ensures FromInterval(3) == Success(Frequency(333))
  {
  }

  /** 5 Hz is 200 ms, and an interval of 200 ms is the same frequency. */
  lemma FrequencyExamples()
    ensures MakeFrequency(5) == Success(Frequency(5))
    ensures Frequency(5).Interval() == 200
    ensures FromInterval(200) == Success(Frequency(5))
    ensures MakeFrequency(0) == Failure(ZeroDivisionError)
  {
  }

  // ---------------------------------------------------------------------
  // Epoch
  // ---------------------------------------------------------------------

  /** A window of `length` milliseconds starting `offset` milliseconds in. */
  datatype Epoch = Epoch(length: int, offset: int)

  // ---------------------------------------------------------------------
  // Sequence helpers
  // ---------------------------------------------------------------------

  ghost predicate StrictlyIncreasing(xs: seq<int>) {
    forall i, j :: 0 <= i < j < |xs| ==> xs[i] < xs[j]
  }

  ghost predicate NonDecreasing(xs: seq<int>) {
    forall i, j :: 0 <= i < j < |xs| ==> xs[i] <= xs[j]
  }

  /** `i` is the first position whose time is at least `t`. */
  ghost predicate FirstAtOrAfter(times: seq<int>, t: real, i: int) {
    && 0 <= i < |times|
    && times[i] as real >= t
    && forall j :: 0 <= j < i ==> (times[j] as real) < t
  }

  /** Python's `xs[lo:hi]` for `0 <= lo` and `hi <= |xs|`: empty when the
      bounds cross. */
  function PySlice<T>(xs: seq<T>, lo: nat, hi: nat): seq<T>
    requires hi <= |xs|
  {
    if lo <= hi then xs[lo..hi] else []
  }

  /** `numpy.arange(start, stop, step)` over integers with a positive step:
      `ceil((stop - start) / step)` points `start`, `start + step`, ... */
  function Arange(start: int, stop: int, step: int): (r: seq<int>)
    requires step > 0
    ensures forall i :: 0 <= i < |r| ==> r[i] == start + i * step
    ensures forall i :: 0 <= i < |r| ==> r[i] < stop
    ensures start + |r| * step >= stop
  {
    var n := if stop <= start then 0 else CeilDiv(stop - start, step);
    ArangeFits(stop - start, step, n);
    seq(n, i requires 0 <= i < n => start + i * step)
  }

  /** `n` steps reach at least `span`, and every earlier step stays below. */
  lemma ArangeFits(span: int, step: int, n: nat)
    requires step > 0
    requires n == if span <= 0 then 0 else CeilDiv(span, step)
    ensures n * step >= span
    ensures forall i :: 0 <= i < n ==> i * step < span
  {
    if span > 0 {
      DivBounds(span + step - 1, step);
      forall i | 0 <= i < n
        ensures i * step < span
      {
        MulMono(i, n - 1, step);
      }
    }
  }

  /** A grid of `n` steps from `start` ends just before `start + n * step`. */
  lemma ArangeCount(start: int, n: nat, step: int)
    requires step > 0
    ensures |Arange(start, start + n * step, step)| == n
  {
    var r := Arange(start, start + n * step, step);
    MulCancelLe(n, |r|, step);
    if |r| > 0 {
      assert r[|r| - 1] < start + n * step;
      MulCancelLt(|r| - 1, n, step);
    }
  }

  // ---------------------------------------------------------------------
  // index_at and linear interpolation
  // ---------------------------------------------------------------------

  /** `index_at(t)`: the first position whose time is at least `t`; a
      `ValueError` when every time is below `t`. */
  function IndexAt(times: seq<int>, t: real): (r: Result<nat>)
    ensures r.Success? <==> exists i :: 0 <= i < |times| && times[i] as real >= t
    ensures r.Success? ==> FirstAtOrAfter(times, t, r.value)
    ensures r.Failure? ==> r.error == ValueError
  {
    if |times| == 0 then Failure(ValueError)
    else if times[0] as real >= t then Success(0)
    else
      match IndexAt(times[1..], t)
      case Success(i) =>
        assert forall j :: 1 <= j <= i ==> times[j] == times[1..][j - 1];
        Success(i + 1)
      case Failure(e) =>
        assert forall j :: 1 <= j < |times| ==> times[j] == times[1..][j - 1];
        Failure(e)
  }

  /** `numpy.searchsorted(times, t)` (left side), as `interp1d` uses it:
      the number of times below `t`, which on sorted times is the first
      position whose time is at least `t`, or the length when there is
      none. */
  function SearchSorted(times: seq<int>, t: real): (r: nat)
    ensures r <= |times|
    ensures forall j :: 0 <= j < r ==> (times[j] as real) < t
    ensures r < |times| ==> times[r] as real >= t
  {
    if |times| == 0 || times[0] as real >= t then 0
    else
      var i := SearchSorted(times[1..], t);
      assert forall j :: 1 <= j <= i ==> times[j] == times[1..][j - 1];
      i + 1
  }

  /** The straight line through `(x0, y0)` and `(x1, y1)`, read at `t`. */
  function Lerp(x0: int, y0: real, x1: int, y1: real, t: real): real
    requires x0 < x1
  {
    y0 + (y1 - y0) * ((t - x0 as real) / ((x1 - x0) as real))
  }

  ghost predicate Between(v: real, a: real, b: real) {
    (a <= v <= b) || (b <= v <= a)
  }

  /** Between its two end points a line stays between their values. */
  lemma LerpBetween(x0: int, y0: real, x1: int, y1: real, t: real)
    requires x0 < x1 && x0 as real <= t <= x1 as real
    ensures Between(Lerp(x0, y0, x1, y1, t), y0, y1)
  {
    UnitFraction(t - x0 as real, (x1 - x0) as real);
    ScaledStepBetween(y0, y1 - y0, (t - x0 as real) / ((x1 - x0) as real));
  }

  /** A part over a positive whole lies between zero and one. */
  lemma UnitFraction(part: real, whole: real)
    requires whole > 0.0 && 0.0 <= part <= whole
    ensures 0.0 <= part / whole <= 1.0
  {
  }

  /** Taking a fraction between zero and one of a step from `y` stays
      between `y` and the step's end. */
  lemma ScaledStepBetween(y: real, dy: real, frac: real)
    requires 0.0 <= frac <= 1.0
    ensures Between(y + dy * frac, y, y + dy)
  {
    if dy >= 0.0 {
      assert dy * frac <= dy * 1.0;
    } else {
      assert (-dy) * frac <= (-dy) * 1.0;
    }
  }

  /** A line passes through both of its end points. */
  lemma LerpAtEnds(x0: int, y0: real, x1: int, y1: real)
    requires x0 < x1
    ensures Lerp(x0, y0, x1, y1, x0 as real) == y0
    ensures Lerp(x0, y0, x1, y1, x1 as real) == y1
  {
    var d := (x1 - x0) as real;
    assert (x1 as real - x0 as real) / d == 1.0;
  }

  /** `interp1d(times, data)(t)` with linear interpolation: searches the
      first time at or after `t`, clamps that position to at least 1 and
      interpolates between it and its predecessor. Building the linear
      interpolator needs at least two samples, and values of `t` outside
      the sampled range raise `ValueError` as well. */
  function Interpolate(times: seq<int>, data: seq<real>, t: real): (r: Result<real>)
    requires |times| == |data|
    requires StrictlyIncreasing(times)
    ensures r.Success? <==>
      |times| >= 2 && times[0] as real <= t <= times[|times| - 1] as real
    ensures r.Failure? ==> r.error == ValueError
    ensures r.Success? ==>
      exists i :: 0 <= i < |times| - 1
        && times[i] as real <= t <= times[i + 1] as real
        && r.value == Lerp(times[i], data[i], times[i + 1], data[i + 1], t)
        && Between(r.value, data[i], data[i + 1])
  {
    if |times| < 2 then Failure(ValueError)
    else if t < times[0] as real || t > times[|times| - 1] as real then Failure(ValueError)
    else
      var found := SearchSorted(times, t);
      var hi := if found == 0 then 1 else found;
      assert times[hi - 1] as real <= t <= times[hi] as real;
      LerpBetween(times[hi - 1], data[hi - 1], times[hi], data[hi], t);
      Success(Lerp(times[hi - 1], data[hi - 1], times[hi], data[hi], t))
  }

  /** Interpolation returns the stored value exactly at every sample time. */
  lemma InterpolateAtSample(times: seq<int>, data: seq<real>, j: nat)
    requires |times| == |data| && StrictlyIncreasing(times) && 2 <= |times| && j < |times|
    ensures Interpolate(times, data, times[j] as real) == Success(data[j])
  {
    var t := times[j] as real;
    if |times| > 1 {
      var found := SearchSorted(times, t);
      assert found == j;
      if j == 0 {
        LerpAtEnds(times[0], data[0], times[1], data[1]);
      } else {
        LerpAtEnds(times[j - 1], data[j - 1], times[j], data[j]);
      }
    }
  }

  /** `f(xs)` for an interpolator `f = interp1d(times, data)`: building `f`
      needs at least two samples; then every point is interpolated, failing
      on the first point outside the sampled range. */
  function InterpolateAll(times: seq<int>, data: seq<real>, xs: seq<int>): (r: Result<seq<real>>)
    requires |times| == |data|
    requires StrictlyIncreasing(times)
    ensures r.Success? <==>
      |times| >= 2 && forall k :: 0 <= k < |xs| ==> Interpolate(times, data, xs[k] as real).Success?
    ensures r.Failure? ==> r.error == ValueError
    ensures r.Success? ==> (|r.value| == |xs| &&
      forall k :: 0 <= k < |xs| ==> r.value[k] == Interpolate(times, data, xs[k] as real).value)
  {
    if |times| < 2 then Failure(ValueError)
    else if forall k :: 0 <= k < |xs| ==> Interpolate(times, data, xs[k] as real).Success? then
      Success(seq(|xs|, k requires 0 <= k < |xs| => Interpolate(times, data, xs[k] as real).value))
    else
      Failure(ValueError)
  }

  // ---------------------------------------------------------------------
  // Timeseries
  // ---------------------------------------------------------------------

  /** The two timeseries representations. A variable series stores one time
      per sample; a uniform series derives them from its frequency. */
  datatype TimeSeries =
    | Variable(data: seq<real>, times: seq<int>, offset: int)
    | Uniform(frequency: Frequency, data: seq<real>, offset: int)
  {
    predicate Valid() {
      match this
      case Variable(d, t, _) => |d| == |t|
      case Uniform(f, _, _) => f.Valid()
    }

    /** `len(series)`: the number of samples, which for a variable series
        is also the number of sample times. */
    function Len(): (r: nat)
      ensures Valid() && Variable? ==> r == |times|
    {
      |data|
    }

    /** `duration`: the last sample time of a variable series (0 when
        empty); the sample count times the interval for a uniform one. No
        sample time of an ordered variable series lies past it, and a
        uniform series lasts one interval past its last sample. */
    function Duration(): (r: int)
      requires Valid()
      ensures Variable? && |times| == 0 ==> r == 0
      ensures Variable? && NonDecreasing(times) ==>
        forall i :: 0 <= i < |times| ==> times[i] <= r
      ensures Uniform? ==> 0 <= r
      ensures Uniform? && Len() > 0 ==>
        r == (Len() - 1) * frequency.Interval() + frequency.Interval()
    {
      match this
      case Variable(_, t, _) => if |t| == 0 then 0 else t[|t| - 1]
      case Uniform(f, d, _) =>
        MulMono(0, |d|, f.Interval());
        assert |d| > 0 ==> |d| * f.Interval() == (|d| - 1) * f.Interval() + f.Interval();
        |d| * f.Interval()
    }

    /** `end_time`: start time plus duration, so never before the start. */
    function EndTime(): (r: int)
      requires Valid()
      ensures Uniform? ==> offset <= r
      ensures Variable? && |times| == 0 ==> r == offset
      ensures Variable? && NonDecreasing(times) ==>
        forall i :: 0 <= i < |times| ==> offset + times[i] <= r
    {
      offset + Duration()
    }

    /** Sample times are in increasing order, which interpolation needs. */
    ghost predicate Interpolable() {
      Variable? ==> StrictlyIncreasing(times)
    }
  }

  /** `VariableTimeSeries(data, times, offset)`: refuses data and times of
      different lengths with a `ValueError`. */
  function NewVariable(data: seq<real>, times: seq<int>, offset: int): (r: Result<TimeSeries>)
    ensures r.Success? <==> |data| == |times|
    ensures r.Failure? ==> r.error == ValueError
    ensures r.Success? ==> (r.value.Valid() && r.value.Variable?
      && r.value.Len() == |r.value.times| == |data|
      && r.value.data == data && r.value.times == times && r.value.offset == offset)
  {
    if |data| != |times| then Failure(ValueError)
    else Success(Variable(data, times, offset))
  }

  /** `get(index)`: Python subscript of the samples; `IndexError` outside
      `-len .. len - 1`. */
  function Get(s: TimeSeries, index: int): (r: Result<real>)
    ensures r.Success? <==> -(s.Len() as int) <= index < s.Len()
    ensures r.Failure? ==> r.error == IndexError
    ensures 0 <= index < s.Len() ==> r == Success(s.data[index])
    ensures -(s.Len() as int) <= index < 0 ==> r == Success(s.data[s.Len() + index])
  {
    match PyIndex(|s.data|, index)
    case Some(i) => Success(s.data[i])
    case None => Failure(IndexError)
  }

  /** The computed sample times of a uniform series,
      `numpy.arange(offset, end_time, interval)`; a zero interval (rates
      above 1000 Hz) makes `arange` divide by zero. */
  function UniformTimes(s: TimeSeries): (r: Result<seq<int>>)
    requires s.Uniform? && s.Valid()
    ensures r.Success? <==> s.frequency.Interval() > 0
    ensures r.Failure? ==> r.error == ZeroDivisionError
    ensures r.Success? ==> (|r.value| == s.Len()
      && forall i :: 0 <= i < s.Len() ==> r.value[i] == s.offset + i * s.frequency.Interval())
  {
    var step := s.frequency.Interval();
    if step == 0 then Failure(ZeroDivisionError)
    else
      ArangeCount(s.offset, |s.data|, step);
      Success(Arange(s.offset, s.EndTime(), step))
  }

  /** Uniform sample times increase strictly. */
  lemma UniformTimesIncreasing(s: TimeSeries)
    requires s.Uniform? && s.Valid() && UniformTimes(s).Success?
    ensures StrictlyIncreasing(UniformTimes(s).value)
  {
    var ts := UniformTimes(s).value;
    var step := s.frequency.Interval();
    forall i, j | 0 <= i < j < |ts|
      ensures ts[i] < ts[j]
    {
      MulStrictMono(i, j, step);
    }
  }

  /** The sample times of either representation. */
  function SampleTimes(s: TimeSeries): (r: Result<seq<int>>)
    requires s.Valid()
    ensures s.Variable? ==> r == Success(s.times)
    ensures s.Uniform? ==> (r.Success? <==> s.frequency.Interval() > 0)
    ensures r.Success? ==> |r.value| == s.Len()
    ensures s.Uniform? && r.Success? ==>
      forall i :: 0 <= i < s.Len() ==> r.value[i] == s.offset + i * s.frequency.Interval()
  {
    match s
    case Variable(_, t, _) => Success(t)
    case Uniform(_, _, _) => UniformTimes(s)
  }

  /** `at(t)`: linear interpolation between the samples around `t`,
      defined from the first to the last sample time of a series with at
      least two samples. */
  function At(s: TimeSeries, t: real): (r: Result<real>)
    requires s.Valid() && s.Interpolable()
    ensures s.Variable? ==>
      (r.Success? <==> s.Len() >= 2 && s.times[0] as real <= t <= s.times[s.Len() - 1] as real)
    ensures s.Uniform? ==>
      (r.Success? <==> (s.frequency.Interval() > 0 && s.Len() >= 2 &&
        s.offset as real <= t <= (s.offset + (s.Len() - 1) * s.frequency.Interval()) as real))
    ensures r.Success? ==> SampleTimes(s).Success? && StrictlyIncreasing(SampleTimes(s).value)
    ensures r.Failure? ==> r.error == ValueError || r.error == ZeroDivisionError
  {
    match s
    case Variable(d, ts, _) => Interpolate(ts, d, t)
    case Uniform(_, d, _) =>
      match UniformTimes(s)
      case Failure(e) => Failure(e)
      case Success(ts) =>
        UniformTimesIncreasing(s);
        Interpolate(ts, d, t)
  }

  /** What `at` returns: the linear interpolation at `t` between two
      neighbouring sample times around `t`, which lies between their
      values. */
  lemma AtInterpolates(s: TimeSeries, t: real)
    requires s.Valid() && s.Interpolable() && At(s, t).Success?
    ensures var ts := SampleTimes(s).value;
      exists i :: 0 <= i < s.Len() - 1
        && ts[i] as real <= t <= ts[i + 1] as real
        && At(s, t).value == Lerp(ts[i], s.data[i], ts[i + 1], s.data[i + 1], t)
        && Between(At(s, t).value, s.data[i], s.data[i + 1])
  {
    if s.Uniform? {
      UniformTimesIncreasing(s);
    }
  }

  /** `at` reproduces every stored sample at its own time. */
  lemma AtSampleTime(s: TimeSeries, i: nat)
    requires s.Valid() && s.Interpolable() && 2 <= s.Len() && i < s.Len()
    requires SampleTimes(s).Success?
    ensures At(s, SampleTimes(s).value[i] as real) == Success(s.data[i])
  {
    if s.Uniform? {
      UniformTimesIncreasing(s);
    }
    InterpolateAtSample(SampleTimes(s).value, s.data, i);
  }

  /** The end time and the sample times agree: a uniform series ends one
      interval after its last sample time, and a variable series ends at
      its offset plus its last time. */
  lemma EndAfterSamples(s: TimeSeries)
    requires s.Valid() && s.Len() > 0 && SampleTimes(s).Success?
    ensures var ts := SampleTimes(s).value;
      s.Uniform? ==> s.EndTime() == ts[s.Len() - 1] + s.frequency.Interval()
    ensures var ts := SampleTimes(s).value;
      s.Variable? ==> s.EndTime() == s.offset + ts[s.Len() - 1]
    ensures var ts := SampleTimes(s).value;
      s.Uniform? ==> forall i :: 0 <= i < s.Len() ==> ts[i] < s.EndTime()
  {
    if s.Uniform? {
      var ts := SampleTimes(s).value;
      var step := s.frequency.Interval();
      forall i | 0 <= i < s.Len()
        ensures ts[i] < s.EndTime()
      {
        MulMono(i, s.Len() - 1, step);
      }
    }
  }

  /** `VariableTimeSeries.slice(epoch)`: the stored samples from the first
      one at or after the window start through the first one at or after the
      window end. The times are kept as stored; only the offset moves to
      the window start. */
  function SliceVariable(s: TimeSeries, e: Epoch): (r: Result<TimeSeries>)
    requires s.Variable? && s.Valid()
    ensures r.Success? <==>
      IndexAt(s.times, e.offset as real).Success? && IndexAt(s.times, (e.offset + e.length) as real).Success?
    ensures r.Failure? ==> r.error == ValueError
    ensures r.Success? ==> r.value.Variable? && r.value.Valid() && r.value.offset == e.offset
    ensures r.Success? ==>
      var lo, last := IndexAt(s.times, e.offset as real).value, IndexAt(s.times, (e.offset + e.length) as real).value;
      r.value.data == PySlice(s.data, lo, last + 1) && r.value.times == PySlice(s.times, lo, last + 1)
  {
    match IndexAt(s.times, e.offset as real)
    case Failure(err) => Failure(err)
    case Success(lo) =>
      match IndexAt(s.times, (e.offset + e.length) as real)
      case Failure(err) => Failure(err)
      case Success(last) =>
        Success(Variable(PySlice(s.data, lo, last + 1), PySlice(s.times, lo, last + 1), e.offset))
  }

  /** A variable slice succeeds exactly when some sample is at or after the
      window start and some sample is at or after the window end. */
  lemma SliceVariableSucceeds(s: TimeSeries, e: Epoch)
    requires s.Variable? && s.Valid()
    ensures SliceVariable(s, e).Success? <==>
      (exists i :: 0 <= i < s.Len() && s.times[i] >= e.offset) &&
      (exists i :: 0 <= i < s.Len() && s.times[i] >= e.offset + e.length)
  {
  }

  /** On ordered times, the window's first and last positions bracket every
      sample whose time lies inside the window. */
  lemma WindowPositions(times: seq<int>, a: int, b: int, lo: nat, last: nat)
    requires NonDecreasing(times) && a <= b
    requires FirstAtOrAfter(times, a as real, lo) && FirstAtOrAfter(times, b as real, last)
    ensures lo <= last
    ensures forall i :: 0 <= i < |times| && a <= times[i] <= b ==>
      (lo <= i <= last || times[i] == times[last])
    ensures forall i :: lo <= i <= last ==> a <= times[i]
    ensures forall i :: lo <= i < last ==> times[i] < b
  {
    forall i | 0 <= i < |times| && a <= times[i] <= b
      ensures lo <= i <= last || times[i] == times[last]
    {
      if i > last {
        assert times[last] <= times[i];
      }
    }
    forall i | lo <= i <= last
      ensures a <= times[i]
    {
      assert times[lo] <= times[i];
    }
    forall i | lo <= i < last
      ensures times[i] < b
    {
    }
  }

  /** On ordered times, the run from the window's first position through its
      last one holds every time inside the window, starts inside it, and
      stays below its end until the final element. */
  lemma WindowRun(times: seq<int>, a: int, b: int, lo: nat, last: nat, run: seq<int>)
    requires NonDecreasing(times) && a <= b
    requires FirstAtOrAfter(times, a as real, lo) && FirstAtOrAfter(times, b as real, last)
    requires run == PySlice(times, lo, last + 1)
    ensures forall i :: 0 <= i < |times| && a <= times[i] <= b ==>
      exists k :: 0 <= k < |run| && run[k] == times[i]
    ensures forall k :: 0 <= k < |run| ==> a <= run[k]
    ensures forall k :: 0 <= k < |run| - 1 ==> run[k] < b
  {
    WindowPositions(times, a, b, lo, last);
    assert run == times[lo..last + 1];
    forall i | 0 <= i < |times| && a <= times[i] <= b
      ensures exists k :: 0 <= k < |run| && run[k] == times[i]
    {
      if lo <= i <= last {
        assert run[i - lo] == times[i];
      } else {
        assert run[last - lo] == times[last];
      }
    }
    forall k | 0 <= k < |run|
      ensures a <= run[k]
    {
      assert run[k] == times[lo + k];
    }
    forall k | 0 <= k < |run| - 1
      ensures run[k] < b
    {
      assert run[k] == times[lo + k];
    }
  }

  /** On ordered times a slice keeps every sample whose time lies inside the
      window. */
  lemma SliceKeepsWindow(s: TimeSeries, e: Epoch)
    requires s.Variable? && s.Valid() && NonDecreasing(s.times) && e.length >= 0
    requires SliceVariable(s, e).Success?
    ensures var run := SliceVariable(s, e).value.times;
      forall i :: 0 <= i < s.Len() && e.offset <= s.times[i] <= e.offset + e.length ==>
        exists k :: 0 <= k < |run| && run[k] == s.times[i]
  {
    var ts := s.times;
    var lo := IndexAt(ts, e.offset as real).value;
    var last := IndexAt(ts, (e.offset + e.length) as real).value;
    WindowRun(ts, e.offset, e.offset + e.length, lo, last, SliceVariable(s, e).value.times);
  }

  /** On ordered times a slice holds no sample before the window, and only
      its final sample may lie at or past the window's end. */
  lemma SliceStaysInWindow(s: TimeSeries, e: Epoch)
    requires s.Variable? && s.Valid() && NonDecreasing(s.times) && e.length >= 0
    requires SliceVariable(s, e).Success?
    ensures var run := SliceVariable(s, e).value.times;
      forall k :: 0 <= k < |run| ==> e.offset <= run[k]
    ensures var run := SliceVariable(s, e).value.times;
      forall k :: 0 <= k < |run| - 1 ==> run[k] < e.offset + e.length
  {
    var ts := s.times;
    var lo := IndexAt(ts, e.offset as real).value;
    var last := IndexAt(ts, (e.offset + e.length) as real).value;
    WindowRun(ts, e.offset, e.offset + e.length, lo, last, SliceVariable(s, e).value.times);
  }

  /** `UniformTimeSeries.slice(epoch)`: the series interpolated onto the grid
      `arange(epoch.offset, epoch.offset + epoch.length, interval)`. */
  function SliceUniform(s: TimeSeries, e: Epoch): (r: Result<TimeSeries>)
    requires s.Uniform? && s.Valid()
    ensures r.Success? <==>
      s.frequency.Interval() > 0 && s.Len() >= 2 &&
      var grid := Arange(e.offset, e.offset + e.length, s.frequency.Interval());
      forall k :: 0 <= k < |grid| ==>
        s.offset <= grid[k] <= s.offset + (s.Len() - 1) * s.frequency.Interval()
    ensures r.Success? ==> (r.value.Uniform? && r.value.frequency == s.frequency
      && r.value.offset == e.offset
      && |r.value.data| == |Arange(e.offset, e.offset + e.length, s.frequency.Interval())|
      && var grid := Arange(e.offset, e.offset + e.length, s.frequency.Interval());
         forall k :: 0 <= k < |grid| ==> At(s, grid[k] as real) == Success(r.value.data[k]))
  {
    match UniformTimes(s)
    case Failure(err) => Failure(err)
    case Success(times) =>
      UniformTimesIncreasing(s);
      var grid := Arange(e.offset, e.offset + e.length, s.frequency.Interval());
      match InterpolateAll(times, s.data, grid)
      case Failure(err) => Failure(err)
      case Success(values) => Success(Uniform(s.frequency, values, e.offset))
  }

  /** A window aligned to the sample grid slices out exactly the samples it
      covers. */
  lemma SliceUniformAligned(s: TimeSeries, first: nat, count: nat)
    requires s.Uniform? && s.Valid() && s.frequency.Interval() > 0
    requires first + count <= s.Len() && count > 0 && s.Len() >= 2
    ensures var step := s.frequency.Interval();
      var r := SliceUniform(s, Epoch(count * step, s.offset + first * step));
      r == Success(Uniform(s.frequency, s.data[first..first + count], s.offset + first * step))
  {
    var step := s.frequency.Interval();
    var e := Epoch(count * step, s.offset + first * step);
    AlignedGrid(s, first, count, e);
    AlignedGridInRange(s, first, count, e);
    AlignedSliceData(s, first, count, e);
  }

  /** An aligned window's grid points are consecutive sample times. */
  lemma AlignedGrid(s: TimeSeries, first: nat, count: nat, e: Epoch)
    requires s.Uniform? && s.Valid() && s.frequency.Interval() > 0
    requires first + count <= s.Len()
    requires e == Epoch(count * s.frequency.Interval(), s.offset + first * s.frequency.Interval())
    ensures var grid := Arange(e.offset, e.offset + e.length, s.frequency.Interval());
      |grid| == count &&
      forall k :: 0 <= k < count ==> grid[k] == UniformTimes(s).value[first + k]
  {
    var step := s.frequency.Interval();
    GridRun(UniformTimes(s).value, s.offset, step, first, count, e.offset, e.offset + e.length);
  }

  /** An aligned grid stays within the sampled range, so slicing succeeds. */
  lemma AlignedGridInRange(s: TimeSeries, first: nat, count: nat, e: Epoch)
    requires s.Uniform? && s.Valid() && s.frequency.Interval() > 0
    requires first + count <= s.Len() && count > 0 && s.Len() >= 2
    requires var grid := Arange(e.offset, e.offset + e.length, s.frequency.Interval());
      |grid| == count &&
      forall k :: 0 <= k < count ==> grid[k] == UniformTimes(s).value[first + k]
    ensures SliceUniform(s, e).Success?
  {
    var step := s.frequency.Interval();
    var grid := Arange(e.offset, e.offset + e.length, step);
    forall k | 0 <= k < |grid|
      ensures s.offset <= grid[k] <= s.offset + (s.Len() - 1) * step
    {
      GridPointInRange(s.offset, step, first + k, s.Len());
    }
  }

  /** The `j`-th of `n` regular grid points lies between the first and the
      last. */
  lemma GridPointInRange(base: int, step: int, j: nat, n: nat)
    requires step > 0 && j < n
    ensures base <= base + j * step <= base + (n - 1) * step
  {
    MulMono(0, j, step);
    MulMono(j, n - 1, step);
  }

  /** The slice of an aligned window holds the samples at its grid points. */
  lemma AlignedSliceData(s: TimeSeries, first: nat, count: nat, e: Epoch)
    requires s.Uniform? && s.Valid() && s.frequency.Interval() > 0
    requires first + count <= s.Len()
    requires SliceUniform(s, e).Success?
    requires var grid := Arange(e.offset, e.offset + e.length, s.frequency.Interval());
      |grid| == count &&
      forall k :: 0 <= k < count ==> grid[k] == UniformTimes(s).value[first + k]
    ensures SliceUniform(s, e).value.data == s.data[first..first + count]
  {
    var grid := Arange(e.offset, e.offset + e.length, s.frequency.Interval());
    var ts := UniformTimes(s).value;
    var values := SliceUniform(s, e).value.data;
    assert SampleTimes(s) == Success(ts);
    assert forall k :: 0 <= k < |grid| ==> grid[k] == ts[first + k];
    SliceValues(s, e);
    SampledRun(s, first, ts, grid, values);
  }

  /** The values of a uniform slice are `at` of its grid points. */
  lemma SliceValues(s: TimeSeries, e: Epoch)
    requires s.Uniform? && s.Valid() && SliceUniform(s, e).Success?
    ensures var grid := Arange(e.offset, e.offset + e.length, s.frequency.Interval());
      var values := SliceUniform(s, e).value.data;
      |values| == |grid| &&
      forall k :: 0 <= k < |grid| ==> At(s, grid[k] as real) == Success(values[k])
  {
  }

  /** Values that `at` returns at a run of consecutive sample times are the
      samples of that run. */
  lemma SampledRun(s: TimeSeries, first: nat, ts: seq<int>, grid: seq<int>, values: seq<real>)
    requires s.Valid() && s.Interpolable() && SampleTimes(s) == Success(ts)
    requires first + |grid| <= s.Len() && |values| == |grid|
    requires forall k :: 0 <= k < |grid| ==> grid[k] == ts[first + k]
    requires forall k :: 0 <= k < |grid| ==> At(s, grid[k] as real) == Success(values[k])
    ensures values == s.data[first..first + |grid|]
  {
    forall k | 0 <= k < |grid|
      ensures values[k] == s.data[first + k]
    {
      AtSampleValue(s, first + k, grid[k], values[k]);
    }
  }

  /** Whatever `at` returns at a sample's own time is that sample. */
  lemma AtSampleValue(s: TimeSeries, i: nat, t: int, v: real)
    requires s.Valid() && s.Interpolable() && i < s.Len()
    requires SampleTimes(s).Success? && t == SampleTimes(s).value[i]
    requires At(s, t as real) == Success(v)
    ensures v == s.data[i]
  {
    AtSampleTime(s, i);
  }

  /** On a regular grid of times, a grid started at a sample time runs
      through consecutive samples. */
  lemma GridRun(times: seq<int>, base: int, step: int, first: nat, count: nat, start: int, stop: int)
    requires step > 0 && first + count <= |times|
    requires forall i :: 0 <= i < |times| ==> times[i] == base + i * step
    requires start == base + first * step && stop == start + count * step
    ensures |Arange(start, stop, step)| == count
    ensures forall k :: 0 <= k < count ==> Arange(start, stop, step)[k] == times[first + k]
  {
    var g := Arange(start, stop, step);
    ArangeCount(start, count, step);
    forall k | 0 <= k < count
      ensures g[k] == times[first + k]
    {
      assert g[k] == start + k * step;
      assert (first + k) * step == first * step + k * step;
    }
  }

  /** `slice(epoch)` of either representation. */
  function Slice(s: TimeSeries, e: Epoch): (r: Result<TimeSeries>)
    requires s.Valid()
    ensures r.Success? ==> r.value.Valid() && r.value.offset == e.offset
    ensures r.Success? ==> (r.value.Variable? <==> s.Variable?)
  {
    if s.Variable? then SliceVariable(s, e) else SliceUniform(s, e)
  }

  /** `VariableTimeSeries.append(data, times)`: both grow by the same number
      of samples; differing counts raise `ValueError`. */
  function AppendVariable(s: TimeSeries, data: seq<real>, times: seq<int>): (r: Result<TimeSeries>)
    requires s.Variable? && s.Valid()
    ensures r.Success? <==> |data| == |times|
    ensures r.Failure? ==> r.error == ValueError
    ensures r.Success? ==> (r.value.Variable? && r.value.Valid()
      && r.value.Len() == s.Len() + |data|
      && r.value.data[..s.Len()] == s.data && r.value.data[s.Len()..] == data
      && r.value.times[..s.Len()] == s.times && r.value.times[s.Len()..] == times
      && r.value.offset == s.offset)
  {
    if |data| != |times| then Failure(ValueError)
    else Success(Variable(s.data + data, s.times + times, s.offset))
  }

  /** `UniformTimeSeries.append(values)`: the data grows and so do the
      duration and end time, by one interval per appended sample. */
  function AppendUniform(s: TimeSeries, values: seq<real>): (r: TimeSeries)
    requires s.Uniform? && s.Valid()
    ensures r.Uniform? && r.Valid() && r.frequency == s.frequency && r.offset == s.offset
    ensures r.Len() == s.Len() + |values|
    ensures r.data[..s.Len()] == s.data && r.data[s.Len()..] == values
    ensures r.Duration() == s.Duration() + |values| * s.frequency.Interval()
    ensures r.EndTime() == s.EndTime() + |values| * s.frequency.Interval()
  {
    var r := Uniform(s.frequency, s.data + values, s.offset);
    assert r.Duration() == (|s.data| + |values|) * s.frequency.Interval();
    r
  }

  /** `resample(frequency)`, output length only: unchanged for the same
      rate or no data; `signal.resample` to `factor * len` samples when
      raising the rate; `signal.decimate` keeping every `factor`-th sample
      when lowering it. Factors use integer division. */
  function ResampledLength(s: TimeSeries, target: Frequency): (n: nat)
    requires s.Uniform? && s.Valid() && target.Valid()
    ensures target == s.frequency || s.Len() == 0 ==> n == s.Len()
    ensures target.rate > s.frequency.rate && s.Len() > 0 ==>
      n == (target.rate / s.frequency.rate) * s.Len() && n >= s.Len()
    ensures target.rate < s.frequency.rate && s.Len() > 0 ==>
      var q := s.frequency.rate / target.rate;
      q >= 1 && (n - 1) * q < s.Len() <= n * q
  {
    if target == s.frequency || |s.data| == 0 then |s.data|
    else if target.rate > s.frequency.rate then
      var q := target.rate / s.frequency.rate;
      DivBounds(target.rate, s.frequency.rate);
      MulMono(1, q, s.frequency.rate);
      MulMono(1, q, |s.data|);
      q * |s.data|
    else
      var q := s.frequency.rate / target.rate;
      DivBounds(s.frequency.rate, target.rate);
      MulMono(1, q, target.rate);
      var n := CeilDiv(|s.data|, q);
      DivBounds(|s.data| + q - 1, q);
      MulMono(1, n, q);
      n
  }

  // ---------------------------------------------------------------------
  // Worked examples
  // ---------------------------------------------------------------------

  lemma VariableExamples()
    ensures NewVariable([1.0, 2.0, 3.0], [], 0).Failure?
    ensures NewVariable([], [1, 2, 3], 0).Failure?
    ensures IndexAt([1, 2, 3], 1.0) == Success(0)
    ensures IndexAt([1, 2, 3], 2.0) == Success(1)
    ensures IndexAt([1, 2, 3], 3.0) == Success(2)
    ensures IndexAt([1, 2, 3], 1.5) == Success(1)
    ensures IndexAt([1, 2, 3], 3.5) == Failure(ValueError)
    ensures Variable([1.0, 2.0, 3.0], [1, 2, 3], 4).EndTime() == 7
    ensures Variable([], [], 0).Duration() == 0
    ensures Interpolate([1, 2, 3], [1.0, 2.0, 3.0], 2.5) == Success(2.5)
    ensures Interpolate([1, 2, 3], [1.0, 2.0, 3.0], 0.0).Failure?
    ensures Interpolate([1, 2, 3], [1.0, 2.0, 3.0], 4.0).Failure?
    ensures Interpolate([], [], 1.0).Failure?
    ensures At(Variable([5.0], [1], 0), 1.0) == Failure(ValueError)
    ensures SliceUniform(Uniform(Frequency(5), [7.0], 0), Epoch(0, 0)) == Failure(ValueError)
  {
    assert SearchSorted([1, 2, 3], 2.5) == 2;
  }

  lemma UniformExamples()
    ensures Uniform(Frequency(5), [10.0, 20.0, 30.0, 40.0, 50.0, 60.0, 70.0], 0).Duration() == 1400
    ensures Uniform(Frequency(5), [1.0, 2.0, 3.0, 4.0, 5.0, 6.0], 1000).EndTime() == 2200
    ensures ResampledLength(Uniform(Frequency(10), seq(10, i => 1.0), 0), Frequency(5)) == 5
    ensures ResampledLength(Uniform(Frequency(5), seq(10, i => 1.0), 0), Frequency(1)) == 2
    ensures ResampledLength(Uniform(Frequency(5), seq(10, i => 1.0), 0), Frequency(20)) == 40
  {
  }
}
