/**
 The conversion `1000000 * ticks / frequency` multiplies before it divides,
 in 64-bit arithmetic. Once the counter passes 9,223,372,036,854 ticks the
 product no longer fits; with a 10 MHz counter that is about 10.7 days after
 the counter's origin (system boot). The product then wraps, and whatever it
 wraps to, the quotient can never exceed Int64Max / frequency. The last
 reading that still converts already reached that bound at 10 MHz, so the
 guard clamps every later reading to it: the clock stops for good.

 This module models the conversion as written for every counter value (the
 product wrapped as two's complement, which is what the platform's compiler
 produces for this signed overflow, undefined as it is in C++), exhibits the
 stall, and gives an overflow-free conversion that yields the exact value
 wherever the time itself fits in 64 bits.
 */
module ClockOverflow {
  import opened FixedWidth
  import opened ClockImpl
  import opened ClockRuns

  /** Conversion as written, for any counter value: the 64-bit product wraps
      before the division. It agrees with the model's conversion wherever
      that one is defined. */
  function ToMicrosecondsAsWritten(ticks: int, frequency: int): (us: int)
    requires 0 < frequency && InInt64(ticks)
    ensures InInt64(us)
    ensures Convertible(ticks) ==> us == ToMicroseconds(ticks, frequency)
  {
    TruncDiv(Wrap(MicrosPerSecond * ticks), frequency)
  }

  /** One call of the clock as written, for any counter value. */
  function GetCurrentTimeAsWritten(s: ClockState, ticks: int): (r: Reading)
    requires Valid(s) && InInt64(ticks)
    ensures Valid(r.state) && r.state.frequency == s.frequency
    ensures r.state.previous == r.time
    ensures r.time == Max(s.previous, ToMicrosecondsAsWritten(ticks, s.frequency))
    ensures Convertible(ticks) ==> r == GetCurrentTime(s, ticks)
  {
    Observe(s, ToMicrosecondsAsWritten(ticks, s.frequency))
  }

  /** The largest counter value whose product with 1,000,000 fits. */
  const LastConvertibleTicks: int := 9_223_372_036_854

  lemma LastConvertibleTicksIsTheBoundary()
    ensures Convertible(LastConvertibleTicks)
    ensures !Convertible(LastConvertibleTicks + 1)
  {
  }

  /** With a 10 MHz counter, one second past the overflow point the clock
      as written still reports the time it reported just before it, though
      the true time has advanced by a full second: the converted value has
      wrapped negative and is clamped. */
  lemma OverflowStallsClock()
    ensures
      var f := 10_000_000;
      var before := GetCurrentTimeAsWritten(Start(f), LastConvertibleTicks);
      var after := GetCurrentTimeAsWritten(before.state, LastConvertibleTicks + f);
      && before.time == 922_337_203_685
      && ToMicrosecondsAsWritten(LastConvertibleTicks + f, f) == -922_336_203_685
      && after.time == before.time
      && (MicrosPerSecond * (LastConvertibleTicks + f)) / f - before.time == 1_000_000
  {
  }

  /** The highest counter frequency for which the remainder term of the
      split conversion cannot overflow. */
  const MaxFrequency: int := Int64Max / MicrosPerSecond

  /** The time a counter reading stands for, in whole microseconds, fits in
      a signed 64-bit value. */
  predicate Representable(ticks: int, frequency: int)
    requires 0 < frequency
  {
    0 <= ticks <= Int64Max && (MicrosPerSecond * ticks) / frequency <= Int64Max
  }

  /** Overflow-free conversion: whole seconds and the leftover ticks are
      scaled separately. The result is the exact number of whole
      microseconds, and every intermediate product fits in 64 bits. */
  function ToMicrosecondsExact(ticks: int, frequency: int): (us: int)
    requires 0 < frequency <= MaxFrequency && Representable(ticks, frequency)
    ensures us == (MicrosPerSecond * ticks) / frequency
    ensures InInt64(us)
    ensures InInt64(ticks / frequency * MicrosPerSecond)
    ensures InInt64(ticks % frequency * MicrosPerSecond)
  {
    SplitConversionExact(ticks, frequency);
    ticks / frequency * MicrosPerSecond + ticks % frequency * MicrosPerSecond / frequency
  }

  lemma SplitConversionExact(ticks: int, frequency: int)
    requires 0 < frequency && 0 <= ticks
    ensures ticks / frequency * MicrosPerSecond + ticks % frequency * MicrosPerSecond / frequency
      == (MicrosPerSecond * ticks) / frequency
    ensures ticks / frequency * MicrosPerSecond <= (MicrosPerSecond * ticks) / frequency
    ensures 0 <= ticks % frequency * MicrosPerSecond < frequency * MicrosPerSecond
  {
    var w, p := ticks / frequency, ticks % frequency;
    var m := MicrosPerSecond;
    assert ticks == w * frequency + p && 0 <= p < frequency;
    var h := p * m / frequency;
    EuclideanBounds(p * m, frequency);
    assert 0 <= p * m < frequency * m by {
      MulMonotone(p, frequency - 1, m);
    }
    var q := w * m + h;
    assert m * ticks == (w * m) * frequency + p * m;
    assert q * frequency == (w * m) * frequency + h * frequency;
    assert (q + 1) * frequency == (w * m) * frequency + (h + 1) * frequency;
    DivUnique(m * ticks, frequency, q);
  }

  /** One call of the clock with the overflow-free conversion. Its time is
      the larger of the last time and the exact converted reading. */
  function GetCurrentTimeExact(s: ClockState, ticks: int): (r: Reading)
    requires Valid(s) && s.frequency <= MaxFrequency && Representable(ticks, s.frequency)
    ensures Valid(r.state) && r.state.frequency == s.frequency
    ensures r.state.previous == r.time
    ensures r.time == Max(s.previous, (MicrosPerSecond * ticks) / s.frequency)
  {
    Observe(s, ToMicrosecondsExact(ticks, s.frequency))
  }

  /** The corrected clock changes nothing where the original is sound: for
      every non-negative reading whose product fits, it behaves exactly as
      the model of the original. */
  lemma ExactAgreesWhereConvertible(s: ClockState, ticks: int)
    requires Valid(s) && s.frequency <= MaxFrequency
    requires 0 <= ticks && Convertible(ticks)
    ensures Representable(ticks, s.frequency)
    ensures GetCurrentTimeExact(s, ticks) == GetCurrentTime(s, ticks)
  {
    DivUnique(MicrosPerSecond * ticks, s.frequency, ToMicroseconds(ticks, s.frequency));
  }

  /** Past the overflow point, the corrected clock keeps advancing: at 10 MHz
      it reports one more second one second later. */
  lemma ExactClockDoesNotStall()
    ensures
      var f := 10_000_000;
      var before := GetCurrentTimeExact(Start(f), LastConvertibleTicks);
      var after := GetCurrentTimeExact(before.state, LastConvertibleTicks + f);
      after.time - before.time == 1_000_000
  {
  }

  /** The corrected conversion covers every counter value up to the 64-bit
      limit when the counter runs at 1 MHz or faster. */
  lemma ExactCoversAllTicks(ticks: int, frequency: int)
    requires MicrosPerSecond <= frequency <= MaxFrequency
    requires 0 <= ticks <= Int64Max
    ensures Representable(ticks, frequency)
  {
    EuclideanBounds(MicrosPerSecond * ticks, frequency);
    var q := (MicrosPerSecond * ticks) / frequency;
    MulMonotone(MicrosPerSecond, frequency, q);
    assert q * MicrosPerSecond <= MicrosPerSecond * ticks;
    if q > ticks {
      MulMonotone(ticks + 1, q, MicrosPerSecond);
      assert false;
    }
  }

  /** Every 64-bit counter reading can be passed to the call as written. */
  predicate AllInInt64(readings: seq<int>) {
    forall i :: 0 <= i < |readings| ==> InInt64(readings[i])
  }

  /** A run of calls as written, for any 64-bit counter readings. */
  function RunAsWritten(s: ClockState, readings: seq<int>): (t: Trace)
    requires Valid(s) && AllInInt64(readings)
    ensures Valid(t.state) && t.state.frequency == s.frequency
    ensures |t.times| == |readings|
    ensures forall i :: 0 <= i < |t.times| ==> s.previous <= t.times[i] <= t.state.previous
    ensures |readings| == 0 ==> t.state == s
    ensures |readings| > 0 ==> t.state.previous == t.times[|t.times| - 1]
    ensures AllConvertible(readings) ==> t == Run(s, readings)
    decreases |readings|
  {
    if |readings| == 0 then Trace(s, [])
    else
      var first := GetCurrentTimeAsWritten(s, readings[0]);
      var rest := RunAsWritten(first.state, readings[1..]);
      assert AllConvertible(readings) ==> AllConvertible(readings[1..]);
      Trace(rest.state, [first.time] + rest.times)
  }

  /** The guard keeps its promise even past the overflow: for every sequence
      of 64-bit counter readings the times returned never decrease. */
  lemma {:induction false} RunAsWrittenNonDecreasing(s: ClockState, readings: seq<int>)
    requires Valid(s) && AllInInt64(readings)
    ensures NonDecreasing(RunAsWritten(s, readings).times)
    decreases |readings|
  {
    if |readings| > 0 {
      var first := GetCurrentTimeAsWritten(s, readings[0]);
      var rest := RunAsWritten(first.state, readings[1..]);
      RunAsWrittenNonDecreasing(first.state, readings[1..]);
      var times := RunAsWritten(s, readings).times;
      assert times == [first.time] + rest.times;
      forall i, j | 0 <= i <= j < |times|
        ensures times[i] <= times[j]
      {
        if 0 < i {
          assert times[i] == rest.times[i - 1] && times[j] == rest.times[j - 1];
        } else if 0 < j {
          assert times[j] == rest.times[j - 1];
        }
      }
    }
  }

  /** Whatever the wrapped product is, the converted time as written never
      exceeds Int64Max / frequency. */
  lemma AsWrittenBounded(ticks: int, frequency: int)
    requires 0 < frequency && InInt64(ticks)
    ensures ToMicrosecondsAsWritten(ticks, frequency) <= Int64Max / frequency
  {
    var n := Wrap(MicrosPerSecond * ticks);
    var b := Int64Max / frequency;
    EuclideanBounds(Int64Max, frequency);
    if 0 <= n {
      var q := n / frequency;
      EuclideanBounds(n, frequency);
      if q > b {
        MulMonotone(b + 1, q, frequency);
        assert false;
      }
    }
  }

  /** Once the stored time reaches Int64Max / frequency, no 64-bit counter
      reading can move the clock as written again: every later call returns
      the stored time and leaves the state unchanged. */
  lemma {:induction false} StallIsPermanent(s: ClockState, readings: seq<int>)
    requires Valid(s) && AllInInt64(readings)
    requires s.previous == Int64Max / s.frequency
    ensures RunAsWritten(s, readings).state == s
    ensures forall i :: 0 <= i < |readings| ==> RunAsWritten(s, readings).times[i] == s.previous
    decreases |readings|
  {
    if |readings| > 0 {
      AsWrittenBounded(readings[0], s.frequency);
      StallIsPermanent(s, readings[1..]);
    }
  }

  /** At 10 MHz the last reading that converts already stores the bound, so
      the clock as written is stopped for every reading that follows. */
  lemma OverflowStallIsPermanent(later: seq<int>)
    requires AllInInt64(later)
    ensures
      var f := 10_000_000;
      var before := GetCurrentTimeAsWritten(Start(f), LastConvertibleTicks);
      && before.state.previous == Int64Max / f
      && forall i :: 0 <= i < |later| ==> RunAsWritten(before.state, later).times[i] == before.time
  {
    var f := 10_000_000;
    var before := GetCurrentTimeAsWritten(Start(f), LastConvertibleTicks);
    StallIsPermanent(before.state, later);
  }
}
