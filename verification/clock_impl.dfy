/**
 The Windows implementation of `sf::priv::ClockImpl::getCurrentTime`: a
 monotonic microsecond clock built on the performance counter.

 The two function-local statics of the original become an explicit
 `ClockState`: the counter frequency, read once and never changed, and the
 last time handed out, which starts at 0. The raw counter reading is a
 parameter of each call, so the clock is a pure step function from one
 state to the next.
 */
module ClockImpl {
  import opened FixedWidth

  const MicrosPerSecond: int := 1_000_000

  /** The clock's process-wide state: counter ticks per second, and the
      largest time (in microseconds) returned so far. */
  datatype ClockState = ClockState(frequency: int, previous: int)

  /** The outcome of one call: the state after it and the time it returns. */
  datatype Reading = Reading(state: ClockState, time: int)

  /** Both statics hold signed 64-bit values; the frequency is a divisor, so
      it must be positive. */
  predicate Valid(s: ClockState) {
    0 < s.frequency <= Int64Max && InInt64(s.previous)
  }

  /** The counter reading can be scaled to microseconds without the 64-bit
      product overflowing; the original has no guard against it. */
  predicate Convertible(ticks: int) {
    InInt64(MicrosPerSecond * ticks)
  }

  /** The state on first use: the frequency reported by the counter, and no
      time handed out yet. */
  function Start(frequency: int): (s: ClockState)
    requires 0 < frequency <= Int64Max
    ensures Valid(s)
    ensures s.frequency == frequency && s.previous == 0
  {
    ClockState(frequency, 0)
  }

  /** Converts a counter reading to whole microseconds: the number of
      microseconds in ticks / frequency seconds, rounded toward zero as
      C++ integer division rounds. */
  function ToMicroseconds(ticks: int, frequency: int): (us: int)
    requires 0 < frequency && Convertible(ticks)
    ensures InInt64(us)
    ensures 0 <= ticks ==>
      0 <= us && us * frequency <= MicrosPerSecond * ticks < (us + 1) * frequency
    ensures ticks < 0 ==>
      us <= 0 && (-us) * frequency <= -(MicrosPerSecond * ticks) < (-us + 1) * frequency
  {
    TruncDiv(MicrosPerSecond * ticks, frequency)
  }

  /** The monotonic guard: a converted time below the last one returned is
      a regression and is replaced by the last time, leaving the state as it
      was; any other time is returned and remembered. */
  function Observe(s: ClockState, now: int): (r: Reading)
    requires Valid(s) && InInt64(now)
    ensures Valid(r.state) && r.state.frequency == s.frequency
    ensures r.state.previous == r.time
    ensures s.previous <= r.time && now <= r.time
    ensures r.time == s.previous || r.time == now
    ensures now < s.previous ==> r.state == s
  {
    if now < s.previous then Reading(s, s.previous)
    else Reading(s.(previous := now), now)
  }

  /** One call of the clock with the counter showing `ticks`: the converted
      time, raised to the last time returned if the counter went backwards. */
  function GetCurrentTime(s: ClockState, ticks: int): (r: Reading)
    requires Valid(s) && Convertible(ticks)
    ensures Valid(r.state) && r.state.frequency == s.frequency
    ensures r.state.previous == r.time
    ensures s.previous <= r.time && ToMicroseconds(ticks, s.frequency) <= r.time
    ensures ToMicroseconds(ticks, s.frequency) < s.previous ==>
      r.state == s && r.time == s.previous
    ensures s.previous <= ToMicroseconds(ticks, s.frequency) ==>
      r.time == ToMicroseconds(ticks, s.frequency)
  {
    Observe(s, ToMicroseconds(ticks, s.frequency))
  }

  /** The larger of two times. */
  function Max(a: int, b: int): (r: int)
    ensures a <= r && b <= r
    ensures r == a || r == b
  {
    if a < b then b else a
  }

  /** Every reading in a sequence can be converted. */
  predicate AllConvertible(readings: seq<int>) {
    forall i :: 0 <= i < |readings| ==> Convertible(readings[i])
  }

  /** The record of a run of calls: the final state and the times returned,
      in call order. */
  datatype Trace = Trace(state: ClockState, times: seq<int>)

  /** Calls the clock once per counter reading, in order, threading the
      state from each call to the next. */
  function Run(s: ClockState, readings: seq<int>): (t: Trace)
    requires Valid(s) && AllConvertible(readings)
    ensures Valid(t.state) && t.state.frequency == s.frequency
    ensures |t.times| == |readings|
    ensures s.previous <= t.state.previous
    ensures forall i :: 0 <= i < |t.times| ==> s.previous <= t.times[i] <= t.state.previous
    ensures |readings| == 0 ==> t.state == s
    ensures |readings| > 0 ==> t.state.previous == t.times[|t.times| - 1]
    decreases |readings|
  {
    if |readings| == 0 then Trace(s, [])
    else
      var first := GetCurrentTime(s, readings[0]);
      var rest := Run(first.state, readings[1..]);
      Trace(rest.state, [first.time] + rest.times)
  }
}
