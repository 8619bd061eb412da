/**
 Properties of the clock over whole sequences of calls: the times returned
 never decrease, each one is the running maximum of the converted counter
 readings (and of the time the run started from), runs compose, and the
 guard changes nothing while the counter itself behaves.
 */
module ClockRuns {
  import opened FixedWidth
  import opened ClockImpl

  /** The times are in non-decreasing order. */
  predicate NonDecreasing(times: seq<int>) {
    forall i, j :: 0 <= i <= j < |times| ==> times[i] <= times[j]
  }

  /** The guarantee the clock exists for: whatever the counter reports, the
      times returned by successive calls never decrease. Here every product
      fits; the overflowed readings are covered by
      `ClockOverflow.RunAsWrittenNonDecreasing`. */
  lemma {:induction false} RunNonDecreasing(s: ClockState, readings: seq<int>)
    requires Valid(s) && AllConvertible(readings)
    ensures NonDecreasing(Run(s, readings).times)
    decreases |readings|
  {
    if |readings| > 0 {
      var first := GetCurrentTime(s, readings[0]);
      var rest := Run(first.state, readings[1..]);
      RunNonDecreasing(first.state, readings[1..]);
      var times := Run(s, readings).times;
      assert times == [first.time] + rest.times;
      forall i, j | 0 <= i <= j < |times|
        ensures times[i] <= times[j]
      {
        if 0 < i {
          assert times[i] == rest.times[i - 1] && times[j] == rest.times[j - 1];
        } else if 0 < j {
          assert times[j] == rest.times[j - 1];
        }
      }
    }
  }

  /** Each time returned is the largest of the time the run started from and
      every counter reading converted so far: it bounds them all and is one
      of them. */
  lemma {:induction false} RunIsRunningMaximum(s: ClockState, readings: seq<int>, i: int)
    requires Valid(s) && AllConvertible(readings)
    requires 0 <= i < |readings|
    ensures s.previous <= Run(s, readings).times[i]
    ensures forall j :: 0 <= j <= i ==>
      ToMicroseconds(readings[j], s.frequency) <= Run(s, readings).times[i]
    ensures Run(s, readings).times[i] == s.previous ||
      exists j :: 0 <= j <= i && Run(s, readings).times[i] == ToMicroseconds(readings[j], s.frequency)
    decreases i
  {
    var first := GetCurrentTime(s, readings[0]);
    var rest := Run(first.state, readings[1..]);
    var times := Run(s, readings).times;
    assert times == [first.time] + rest.times;
    if i > 0 {
      RunIsRunningMaximum(first.state, readings[1..], i - 1);
      assert times[i] == rest.times[i - 1];
      forall j | 0 <= j <= i
        ensures ToMicroseconds(readings[j], s.frequency) <= times[i]
      {
        if 0 < j {
          assert readings[j] == readings[1..][j - 1];
        }
      }
      if times[i] != first.state.previous {
        var k :| 0 <= k <= i - 1 && rest.times[i - 1] == ToMicroseconds(readings[1..][k], s.frequency);
        assert times[i] == ToMicroseconds(readings[k + 1], s.frequency);
      } else if times[i] != s.previous {
        assert times[i] == ToMicroseconds(readings[0], s.frequency);
      }
    }
  }

  /** Started fresh, the clock never reports a negative time, even for
      counter readings that convert to one. */
  lemma RunFromStartNonNegative(frequency: int, readings: seq<int>)
    requires 0 < frequency <= Int64Max && AllConvertible(readings)
    ensures forall i :: 0 <= i < |readings| ==> 0 <= Run(Start(frequency), readings).times[i]
  {
  }

  /** Running two batches of readings one after the other is the same as
      running them together: the state carries everything a later call
      needs. */
  lemma {:induction false} RunComposes(s: ClockState, a: seq<int>, b: seq<int>)
    requires Valid(s) && AllConvertible(a) && AllConvertible(b)
    ensures AllConvertible(a + b)
    ensures Run(s, a + b).state == Run(Run(s, a).state, b).state
    ensures Run(s, a + b).times == Run(s, a).times + Run(Run(s, a).state, b).times
    decreases |a|
  {
    if |a| > 0 {
      var ab := a + b;
      assert ab[0] == a[0];
      assert ab[1..] == a[1..] + b;
      assert AllConvertible(ab) by {
        forall i | 0 <= i < |ab|
          ensures Convertible(ab[i])
        {
          if i < |a| { assert ab[i] == a[i]; } else { assert ab[i] == b[i - |a|]; }
        }
      }
      var first := GetCurrentTime(s, a[0]);
      assert AllConvertible(a[1..]) by {
        forall i | 0 <= i < |a[1..]|
          ensures Convertible(a[1..][i])
        {
          assert a[1..][i] == a[i + 1];
        }
      }
      RunComposes(first.state, a[1..], b);
      var whole := Run(s, ab);
      var left := Run(first.state, a[1..]);
      assert whole.times == [first.time] + Run(first.state, a[1..] + b).times;
      assert Run(s, a).times == [first.time] + left.times;
      assert Run(s, a).state == left.state;
    } else {
      assert a + b == b;
    }
  }

  /** Conversion preserves the order of counter readings. */
  lemma ConversionMonotone(t1: int, t2: int, frequency: int)
    requires 0 < frequency && Convertible(t1) && Convertible(t2)
    requires t1 <= t2
    ensures ToMicroseconds(t1, frequency) <= ToMicroseconds(t2, frequency)
  {
    var u1, u2 := ToMicroseconds(t1, frequency), ToMicroseconds(t2, frequency);
    if u2 < u1 {
      if 0 <= t1 {
        MulMonotone(u2 + 1, u1, frequency);
      } else if t2 < 0 {
        MulMonotone(-u1 + 1, -u2, frequency);
      }
      assert false;
    }
  }

  /** The counter's readings never decrease. */
  predicate CounterMonotone(readings: seq<int>) {
    forall i, j :: 0 <= i <= j < |readings| ==> readings[i] <= readings[j]
  }

  /** When the counter itself never goes backwards and starts at or past the
      last time returned, the guard never fires: every call returns exactly
      its converted reading. */
  lemma {:induction false} RunTransparentOnMonotoneCounter(s: ClockState, readings: seq<int>)
    requires Valid(s) && AllConvertible(readings) && CounterMonotone(readings)
    requires |readings| > 0 ==> s.previous <= ToMicroseconds(readings[0], s.frequency)
    ensures forall i :: 0 <= i < |readings| ==>
      Run(s, readings).times[i] == ToMicroseconds(readings[i], s.frequency)
    decreases |readings|
  {
    if |readings| > 0 {
      var first := GetCurrentTime(s, readings[0]);
      var rest := Run(first.state, readings[1..]);
      if |readings| > 1 {
        ConversionMonotone(readings[0], readings[1], s.frequency);
      }
      RunTransparentOnMonotoneCounter(first.state, readings[1..]);
      var times := Run(s, readings).times;
      assert times == [first.time] + rest.times;
      forall i | 0 < i < |readings|
        ensures times[i] == ToMicroseconds(readings[i], s.frequency)
      {
        assert times[i] == rest.times[i - 1];
        assert readings[i] == readings[1..][i - 1];
      }
    }
  }

  /** A regressed reading leaves no trace: the state after it is the state
      before it, so the next call behaves as if it had never happened. */
  lemma ClampedReadingIsForgotten(s: ClockState, regressed: int, ticks: int)
    requires Valid(s) && Convertible(regressed) && Convertible(ticks)
    requires ToMicroseconds(regressed, s.frequency) < s.previous
    ensures Run(s, [regressed, ticks]).times[1] == GetCurrentTime(s, ticks).time
    ensures Run(s, [regressed, ticks]).state == GetCurrentTime(s, ticks).state
  {
    assert [regressed, ticks][1..] == [ticks];
    assert [ticks][1..] == [];
  }

  /** Reading the same counter value twice returns the same time and leaves
      the state as the first call left it. */
  lemma RepeatedReadingIsStable(s: ClockState, ticks: int)
    requires Valid(s) && Convertible(ticks)
    ensures GetCurrentTime(GetCurrentTime(s, ticks).state, ticks) == GetCurrentTime(s, ticks)
  {
  }

  /** At 1 tick per microsecond, a counter reporting 1000, 900, 950, 2000
      yields 1000, 1000, 1000, 2000: the two regressed readings are clamped
      and do not move the remembered time. */
  lemma RegressionExample()
    ensures Run(Start(1_000_000), [1000, 900, 950, 2000]).times == [1000, 1000, 1000, 2000]
    ensures Run(Start(1_000_000), [1000, 900, 950]).state.previous == 1000
  {
  }

  /** A 10 MHz counter showing 25,000,000 ticks reads as 2.5 seconds. */
  lemma ConversionExample()
    ensures GetCurrentTime(Start(10_000_000), 25_000_000).time == 2_500_000
  {
  }
}
