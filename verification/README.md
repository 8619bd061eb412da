# SFML monotonic clock (Windows) in Dafny

This project models `sf::priv::ClockImpl::getCurrentTime` from SFML's Windows
back end. It is the function behind `sf::Clock`. It reads the
performance counter and converts the reading to microseconds with the
counter's frequency. It then guards the result so that the times it hands
out never decrease, even when the counter momentarily reports an earlier
value.

The original keeps two function-local statics. The first is the counter
frequency, read once on first use. The second is the previous time
returned, which starts at 0. The model packs both into an immutable
`ClockState`. The raw counter reading becomes a parameter, so one call is a
pure step `GetCurrentTime(state, ticks) -> Reading(state', time)`. A sequence
of calls is the fold `Run(state, readings)`.

Modules:

- `FixedWidth` (`fixed_width.dfy`): the range of `sf::Int64`, two's-complement wrap, and C++ division, which truncates toward zero.
- `ClockImpl` (`clock_impl.dfy`): the state, the conversion, the guard, one call, and a run of calls.
- `ClockRuns` (`clock_runs.dfy`): what holds of the times a run returns.
- `ClockOverflow` (`clock_overflow.dfy`): the overflow in the conversion (see Findings) and a corrected conversion.

The main model follows the code as written, on the inputs where the code's
arithmetic does not overflow. Two preconditions follow from that:

- the frequency is positive, because the code divides by it;
- `1000000 * ticks` fits in a signed 64-bit value, because the code multiplies without a guard.

Negative counter values are admitted, since `LARGE_INTEGER` is signed. They
convert with C++'s truncating division.

The code has no lock around the read-compare-update of the previous time.
The model is single-threaded and claims no atomicity. The code also
multiplies before dividing, so long run times overflow. The model follows
the code in both respects and records the overflow under Findings.

## Model

| member | source | states |
|---|---|---|
| FixedWidth.TruncDiv | src/SFML/System/Win32/ClockImpl.cpp:64 | integer division as in C++: for a non-negative dividend, the largest quotient whose multiple does not exceed it; for a negative one, the negation of that for its magnitude; the quotient never exceeds the dividend in magnitude |
| FixedWidth.Wrap | src/SFML/System/Win32/ClockImpl.cpp:64 | an overflowing 64-bit product becomes the unique signed 64-bit value congruent to it modulo 2^64; values in range are unchanged |
| ClockImpl.Start | src/SFML/System/Win32/ClockImpl.cpp:49-59 | on first use the state holds the counter's frequency and a previous time of 0, and is valid |
| ClockImpl.ToMicroseconds | src/SFML/System/Win32/ClockImpl.cpp:64 | a counter reading converts to the whole number of microseconds in ticks/frequency seconds, rounded toward zero, and the result fits in 64 bits |
| ClockImpl.Observe | src/SFML/System/Win32/ClockImpl.cpp:66-69 | a converted time below the previous one returns the previous time and leaves the state unchanged; otherwise the time is returned and becomes the previous time; the result is at least both, the stored time equals the returned time, and the frequency is untouched |
| ClockImpl.GetCurrentTime | src/SFML/System/Win32/ClockImpl.cpp:47-73 | one call returns the maximum of the previous time and the converted reading; on a regression the state is unchanged and the old previous time is returned; otherwise the converted time is returned and stored; the frequency never changes |
| ClockImpl.Run | src/SFML/System/Win32/ClockImpl.cpp:51-69 | a run returns one time per reading, each between the starting previous time and the final one; the final stored time is the last time returned; the frequency stays what it was at the start |
| ClockRuns.RunNonDecreasing | src/SFML/System/Win32/ClockImpl.cpp:53-69 | for any sequence of counter readings whose products fit in 64 bits, the times returned are in non-decreasing order (`ClockOverflow.RunAsWrittenNonDecreasing` extends this to every 64-bit reading) |
| ClockRuns.RunIsRunningMaximum | src/SFML/System/Win32/ClockImpl.cpp:59-69 | the i-th time returned is the largest of the starting previous time and the first i+1 converted readings: it bounds all of them and equals one of them |
| ClockRuns.RunFromStartNonNegative | src/SFML/System/Win32/ClockImpl.cpp:59-67 | from the initial state every time returned is non-negative, even for readings that convert to a negative time |
| ClockRuns.RunComposes | src/SFML/System/Win32/ClockImpl.cpp:51-69 | running two batches of readings in turn gives the same final state and the same times as running them as one sequence |
| ClockRuns.ConversionMonotone | src/SFML/System/Win32/ClockImpl.cpp:64 | a larger counter reading never converts to a smaller time |
| ClockRuns.RunTransparentOnMonotoneCounter | src/SFML/System/Win32/ClockImpl.cpp:64-69 | when the counter never goes backwards and starts at or past the previous time, every call returns exactly its converted reading |
| ClockRuns.ClampedReadingIsForgotten | src/SFML/System/Win32/ClockImpl.cpp:66-67 | after a regressed reading, the next call returns what it would have returned had the regressed call never happened |
| ClockRuns.RepeatedReadingIsStable | src/SFML/System/Win32/ClockImpl.cpp:64-69 | reading the same counter value twice returns the same time and leaves the same state |
| ClockRuns.RegressionExample | src/SFML/System/Win32/ClockImpl.cpp:66-69 | at one tick per microsecond, readings 1000, 900, 950, 2000 yield 1000, 1000, 1000, 2000, and the clamped readings do not advance the stored time |
| ClockRuns.ConversionExample | src/SFML/System/Win32/ClockImpl.cpp:64 | a 10 MHz counter at 25,000,000 ticks reads as 2,500,000 microseconds |
| ClockOverflow.ToMicrosecondsAsWritten | src/SFML/System/Win32/ClockImpl.cpp:64 | the conversion for any 64-bit counter value, with the product wrapping; it agrees with the main model's conversion wherever the product fits |
| ClockOverflow.GetCurrentTimeAsWritten | src/SFML/System/Win32/ClockImpl.cpp:47-73 | one call for any 64-bit counter value: the maximum of the previous time and the wrapped conversion; identical to the main model's call wherever the product fits |
| ClockOverflow.RunAsWritten | src/SFML/System/Win32/ClockImpl.cpp:51-69 | a run of calls as written over any 64-bit readings returns one time per reading, each between the starting and the final stored time, keeps the frequency, and coincides with `ClockImpl.Run` when every product fits |
| ClockOverflow.RunAsWrittenNonDecreasing | src/SFML/System/Win32/ClockImpl.cpp:53-69 | for every sequence of 64-bit counter readings, overflowed ones included, the times returned by the code as written never decrease |
| ClockOverflow.AsWrittenBounded | src/SFML/System/Win32/ClockImpl.cpp:64 | for every 64-bit counter reading, the wrapped conversion is at most the largest 64-bit value divided by the frequency |
| ClockOverflow.StallIsPermanent | src/SFML/System/Win32/ClockImpl.cpp:64-69 | once the stored time equals the largest 64-bit value divided by the frequency, every later call as written returns the stored time and leaves the state unchanged, whatever the readings |
| ClockOverflow.OverflowStallIsPermanent | src/SFML/System/Win32/ClockImpl.cpp:59-69 | at 10 MHz the last reading whose product fits already stores that bound, so the clock as written returns the same time for every reading after it |
| ClockOverflow.LastConvertibleTicksIsTheBoundary | src/SFML/System/Win32/ClockImpl.cpp:64 | 9,223,372,036,854 is the largest counter value whose product with 1,000,000 fits in 64 bits |
| ClockOverflow.OverflowStallsClock | src/SFML/System/Win32/ClockImpl.cpp:64-69 | at 10 MHz, one second past the overflow point the clock as written still reports the time it reported just before, while the true time has moved on by one second |
| ClockOverflow.SplitConversionExact | src/SFML/System/Win32/ClockImpl.cpp:64 | scaling whole seconds and leftover ticks separately gives exactly the quotient of the unbounded product, with no intermediate larger than frequency times one million |
| ClockOverflow.ToMicrosecondsExact | src/SFML/System/Win32/ClockImpl.cpp:64 | the corrected conversion returns exactly the whole microseconds of the reading, and every intermediate product fits in 64 bits, for every non-negative reading whose time fits |
| ClockOverflow.GetCurrentTimeExact | src/SFML/System/Win32/ClockImpl.cpp:47-73 | one call with the corrected conversion returns the maximum of the previous time and the exact time of the reading, and stores it |
| ClockOverflow.ExactAgreesWhereConvertible | src/SFML/System/Win32/ClockImpl.cpp:64-69 | for every non-negative reading whose product fits, the corrected call is identical to the call as written |
| ClockOverflow.ExactClockDoesNotStall | src/SFML/System/Win32/ClockImpl.cpp:64-69 | at 10 MHz, one second past the overflow point the corrected clock reports exactly one more second |
| ClockOverflow.ExactCoversAllTicks | src/SFML/System/Win32/ClockImpl.cpp:64 | for counters of at least 1 MHz, the corrected conversion is defined for every non-negative 64-bit reading |

## Left out

- `QueryPerformanceFrequency` and `QueryPerformanceCounter` (src/SFML/System/Win32/ClockImpl.cpp:34-39, 62-63) are Windows API calls. Their results are parameters: the frequency goes to `Start`, and each counter value goes to one call.
- The once-only frequency query is modelled by the frequency being part of the state and unchanged by every call. How many times the operating system is asked is not modelled.
- `sf::microseconds` and `sf::Time` (src/SFML/System/Win32/ClockImpl.cpp:72) are types outside this model. The model returns the integer microsecond count.
- The statics are shared across threads with no lock around the read-compare-update. The model is single-threaded. Concurrent monotonicity is not claimed, and the code does not provide it.
- ClockImpl.GetCurrentTime: requires `1000000 * ticks` to fit in 64 bits, because the code has no guard. Readings past that point are modelled by `ClockOverflow.GetCurrentTimeAsWritten`.
- The monotonicity the comment at src/SFML/System/Win32/ClockImpl.cpp:53-58 promises rests on two things the code does not provide: a lock around the read-compare-update at lines 59-69, and a conversion at line 64 that cannot overflow. The model follows the code on both.
- src/SFML/System/Android/PowerImpl.cpp (`setPowersavingEnabledImpl`) takes the activity mutex and sets or clears the keep-screen-on window flag through the Android NDK. It always returns `false`. This is foreign I/O with no logic of its own, so it is not part of this model.

## Findings

| source | as written | input that shows it | evidently intended | confidence | as-written member | corrected member |
|---|---|---|---|---|---|---|
| src/SFML/System/Win32/ClockImpl.cpp:64 | the counter value is multiplied by 1,000,000 in signed 64-bit arithmetic before the division by the frequency, so the product overflows once the counter passes 9,223,372,036,854 ticks (about 10.7 days of uptime at 10 MHz) | frequency 10,000,000: the reading 9,223,372,036,854 gives 922,337,203,685 µs; the reading one second later, 9,223,382,036,854, converts to -922,336,203,685 µs, so the guard returns the old time; since no wrapped conversion can exceed 922,337,203,685 µs at this frequency, the clock never advances again | the exact whole microseconds of the reading, with no intermediate overflow, for run times of years | medium (not executed; signed overflow is undefined in C++, and the model assumes the two's-complement wrap the compiler produces) | ClockOverflow.ToMicrosecondsAsWritten, ClockOverflow.OverflowStallsClock, ClockOverflow.OverflowStallIsPermanent | ClockOverflow.ToMicrosecondsExact, ClockOverflow.GetCurrentTimeExact |

The corrected call is used for readings past the overflow point. Below that
point, `ClockOverflow.ExactAgreesWhereConvertible` proves it is identical to
the call as written. So the monotonicity and running-maximum results in
`ClockRuns` also describe the corrected clock there.
