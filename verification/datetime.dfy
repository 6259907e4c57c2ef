/** The call counter of `DateTime.String` in internal/sysstats/datetime.go, which picks
    between a date layout ("2006-01-02  15:04:05") and a day-of-week layout ("Monday"
    padded to 12, then the time): the day of the week is shown for the last
    `showDoWPeriod` seconds of each minute of calls. The clock and the formatting are
    left out; a call yields which of the two layouts it uses. */
module SysStats {
  import opened GoInt

  const OneSecondInMs: int := 1000
  const OneMinutePeriod: int := 60

  datatype Layout = FullDate | DayOfWeek

  /** The layout of one call and the counter it leaves. */
  datatype Tick = Tick(layout: Layout, counter: int)

  /** Calls per second: `1000 / renderRate`, truncated, where renderRate is the interval
      between calls in milliseconds. */
  function WaitUnit(rate: int): int
    requires rate != 0
  {
    Quot(OneSecondInMs, rate)
  }

  /** The first counter value of a minute that shows the day of the week. */
  function StartDoWAt(rate: int, period: int): int
    requires rate != 0
  {
    (OneMinutePeriod - period) * WaitUnit(rate)
  }

  /** One call: the day-of-week layout from StartDoWAt on, with the counter going back
      to 0 once it has passed a minute; the counter then counts the call. */
  function Step(counter: int, rate: int, period: int): Tick
    requires rate != 0
  {
    var w := WaitUnit(rate);
    if counter >= StartDoWAt(rate, period) then
      Tick(DayOfWeek, (if counter > OneMinutePeriod * w then 0 else counter) + 1)
    else
      Tick(FullDate, counter + 1)
  }

  /** The day of the week is shown exactly when the counter on entry has reached
      StartDoWAt; the counter goes up by one, except that a day-of-week call past a
      minute leaves it at 1. */
  lemma StepCases(counter: int, rate: int, period: int)
    requires rate != 0
    ensures Step(counter, rate, period).layout == DayOfWeek <==> counter >= StartDoWAt(rate, period)
    ensures Step(counter, rate, period).counter == counter + 1 <==>
      !(counter >= StartDoWAt(rate, period) && counter > OneMinutePeriod * WaitUnit(rate)) || counter == 0
    ensures Step(counter, rate, period).counter != counter + 1 ==>
      Step(counter, rate, period).counter == 1 && Step(counter, rate, period).layout == DayOfWeek
  {
  }

  /** With a render interval above 1000 ms (under one call per second) the wait unit is
      0, and every call from a non-negative counter shows the day of the week. */
  lemma SlowRenderAlwaysDoW(counter: int, rate: int, period: int)
    requires rate > OneSecondInMs && counter >= 0
    ensures WaitUnit(rate) == 0
    ensures Step(counter, rate, period).layout == DayOfWeek
  {
  }

  /** The length of a minute of calls plus one: the period of the counter. */
  function Period(rate: int): int
    requires rate != 0
  {
    OneMinutePeriod * WaitUnit(rate) + 1
  }

  /** For a positive rate and 0 <= showDoWPeriod <= 60 the counter on entry stays in
      [0, 60 * waitUnit + 1]. */
  lemma CounterRange(counter: int, rate: int, period: int)
    requires rate > 0 && 0 <= period <= OneMinutePeriod
    requires 0 <= counter <= Period(rate)
    ensures 1 <= Step(counter, rate, period).counter <= Period(rate)
  {
    StartBelowMinute(rate, period);
  }

  lemma StartBelowMinute(rate: int, period: int)
    requires rate > 0 && 0 <= period <= OneMinutePeriod
    ensures 0 <= WaitUnit(rate)
    ensures 0 <= StartDoWAt(rate, period) <= OneMinutePeriod * WaitUnit(rate)
  {
    var w := WaitUnit(rate);
    assert (OneMinutePeriod - period) * w <= OneMinutePeriod * w by {
      assert OneMinutePeriod * w - (OneMinutePeriod - period) * w == period * w;
    }
  }

  /** The counter after n calls. */
  function Calls(counter: int, rate: int, period: int, n: nat): int
    requires rate != 0
    decreases n
  {
    if n == 0 then counter else Calls(Step(counter, rate, period).counter, rate, period, n - 1)
  }

  /** The layouts of n calls. */
  function Layouts(counter: int, rate: int, period: int, n: nat): (r: seq<Layout>)
    requires rate != 0
    ensures |r| == n
    decreases n
  {
    if n == 0 then []
    else [Step(counter, rate, period).layout] + Layouts(Step(counter, rate, period).counter, rate, period, n - 1)
  }

  lemma {:induction false} CallsAdd(counter: int, rate: int, period: int, a: nat, b: nat)
    requires rate != 0
    ensures Calls(counter, rate, period, a + b) == Calls(Calls(counter, rate, period, a), rate, period, b)
    ensures Layouts(counter, rate, period, a + b)
         == Layouts(counter, rate, period, a) + Layouts(Calls(counter, rate, period, a), rate, period, b)
    decreases a
  {
    if a > 0 {
      CallsAdd(Step(counter, rate, period).counter, rate, period, a - 1, b);
    }
  }

  /** Below the end of a minute nothing is reset: n calls add n. */
  lemma {:induction false} CallsCount(counter: int, rate: int, period: int, n: nat)
    requires rate > 0 && 0 <= period <= OneMinutePeriod
    requires 1 <= counter && counter + n <= Period(rate)
    ensures Calls(counter, rate, period, n) == counter + n
    decreases n
  {
    if n > 0 {
      CallsCount(counter + 1, rate, period, n - 1);
    }
  }

  /** From any counter of a minute, Period calls come back to it: the sequence of
      layouts repeats every 60 * waitUnit + 1 calls. */
  lemma Periodic(counter: int, rate: int, period: int, n: nat)
    requires rate > 0 && 0 <= period <= OneMinutePeriod
    requires 1 <= counter <= Period(rate)
    ensures Calls(counter, rate, period, Period(rate)) == counter
    ensures Layouts(counter, rate, period, Period(rate) + n)
         == Layouts(counter, rate, period, Period(rate)) + Layouts(counter, rate, period, n)
  {
    ReturnsAfterPeriod(counter, rate, period);
    CallsAdd(counter, rate, period, Period(rate), n);
  }

  lemma ReturnsAfterPeriod(counter: int, rate: int, period: int)
    requires rate > 0 && 0 <= period <= OneMinutePeriod
    requires 1 <= counter <= Period(rate)
    ensures Calls(counter, rate, period, Period(rate)) == counter
  {
    var P := Period(rate);
    var a := P - counter;
    CallsCount(counter, rate, period, a);
    WrapAround(rate, period);
    CallsAdd(counter, rate, period, a, 1);
    CallsCount(1, rate, period, counter - 1);
    CallsAdd(counter, rate, period, a + 1, counter - 1);
    assert a + 1 + (counter - 1) == P;
  }

  /** The call at the end of a minute restarts the counter. */
  lemma WrapAround(rate: int, period: int)
    requires rate > 0 && 0 <= period <= OneMinutePeriod
    ensures Calls(Period(rate), rate, period, 1) == 1
  {
    StartBelowMinute(rate, period);
    assert Step(Period(rate), rate, period).counter == 1;
  }

  /** A fresh counter is 0 and the first call leaves it at 1, inside the period. */
  lemma FirstCall(rate: int, period: int)
    requires rate > 0 && 0 <= period <= OneMinutePeriod
    ensures Step(0, rate, period).counter == 1
  {
    StartBelowMinute(rate, period);
  }

  /** DateTime: only the call counter changes between calls. */
  class DateTime {
    var callCounter: int
    const renderRate: int
    const showDoWPeriod: int

    /** NewDateTime, once the time zone has loaded. */
    constructor (renderRate: int, showDoWPeriod: int)
      ensures callCounter == 0 && this.renderRate == renderRate && this.showDoWPeriod == showDoWPeriod
    {
      callCounter := 0;
      this.renderRate := renderRate;
      this.showDoWPeriod := showDoWPeriod;
    }

    /** Chooses the layout of this call and counts the call. */
    method String() returns (layout: Layout)
      requires renderRate != 0
      modifies this
      ensures Tick(layout, callCounter) == Step(old(callCounter), renderRate, showDoWPeriod)
    {
      var waitUnit := Quot(OneSecondInMs, renderRate);
      var startDoWAt := (OneMinutePeriod - showDoWPeriod) * waitUnit;
      if callCounter >= startDoWAt {
        if callCounter > OneMinutePeriod * waitUnit {
          callCounter := 0;
        }
        layout := DayOfWeek;
      } else {
        layout := FullDate;
      }
      callCounter := callCounter + 1;
    }
  }
}
