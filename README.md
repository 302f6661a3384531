# POSIX clock and sleep of nng, modelled in Dafny

This project models `src/platform/posix/posix_clock.c` of nng, the POSIX
platform layer's time source. It provides two operations:

- `nni_clock` returns the current time as an `nni_time`, a count of
  milliseconds since an arbitrary epoch. There are three variants. The
  clock_gettime variant converts a `timespec`. The Apple variant either uses
  clock_gettime (when a runtime probe finds it) or scales a Mach tick count
  by the timebase. The gettimeofday variant converts a `timeval`.
- `nni_msleep` blocks for at least a number of milliseconds. The
  nanosleep variant retries with the remainder after every interruption. The
  gettimeofday variant polls against an absolute deadline.

Layout:

- `c_arith.dfy`, module `CArith`: C's truncating `/` and `%` on signed
  integers, and the division facts the proofs use.
- `posix_clock.dfy`, module `PosixClock`: the reading types (`Timespec`,
  `Timeval`, `Timebase`), the conversions to milliseconds and back, and the
  three `nni_clock` variants as functions. A variant returns `Time(ms)`, or
  `Panic` where the source calls `nni_panic`.
- `posix_sleep.dfy`, module `PosixSleep`: the two `nni_msleep` loops as
  methods. The operating system is a function-typed oracle indexed by call
  number. Each method returns the trace of the calls it issued, so that its
  postconditions can say exactly which calls were made.

Integers are mathematical. The conversions use C's division explicitly, so
they are also defined for negative fields.

## Model

| member | source | states |
|---|---|---|
| `CArith.Quot` | src/platform/posix/posix_clock.c:100 | C's `/` for a positive divisor truncates toward zero: the quotient times the divisor lies within one divisor of the dividend, on the dividend's side of zero |
| `CArith.Rem` | src/platform/posix/posix_clock.c:101 | C's `%` is the remainder that goes with the truncating quotient (`q*b + r == a`), with the dividend's sign and magnitude below the divisor |
| `PosixClock.TimespecToMs` | src/platform/posix/posix_clock.c:87-89 | for a kernel-written timespec the millisecond value lies in `[sec*1000, sec*1000 + 999]` |
| `PosixClock.TimespecToMsIsFloor` | src/platform/posix/posix_clock.c:87-89 | the conversion truncates: it equals the reading's nanoseconds divided by 10^6, so sub-millisecond nanoseconds are dropped and never rounded up |
| `PosixClock.TimespecToMsMonotone` | src/platform/posix/posix_clock.c:87-89 | a lexicographically later or equal valid reading never yields a smaller `nni_time` |
| `PosixClock.TimevalToMs` | src/platform/posix/posix_clock.c:137-139 | for a kernel-written timeval the millisecond value lies in `[sec*1000, sec*1000 + 999]` |
| `PosixClock.TimevalToMsIsFloor` | src/platform/posix/posix_clock.c:137-139 | the conversion equals the reading's microseconds divided by 1000, truncated |
| `PosixClock.TimevalToMsMonotone` | src/platform/posix/posix_clock.c:137-139 | a lexicographically later or equal valid reading never yields a smaller `nni_time` |
| `PosixClock.MsToTimespec` | src/platform/posix/posix_clock.c:100-101 | for `ms >= 0` the split has `sec >= 0` and `0 <= nsec <= 999000000`; it is all zero exactly when `ms == 0`, so the loop test fails exactly for a zero duration |
| `PosixClock.MsToTimespecSplit` | src/platform/posix/posix_clock.c:100-101 | for `ms >= 0` the split is a valid timespec with `sec == ms/1000` and `nsec == (ms%1000)*10^6` |
| `PosixClock.MsToTimespecRoundTrip` | src/platform/posix/posix_clock.c:100-101 | converting the split back with the clock's timespec conversion gives `ms` again, for every `ms` |
| `PosixClock.MsToTimespecNanos` | src/platform/posix/posix_clock.c:100-101 | the split of `ms >= 0` stands for exactly `ms * 10^6` nanoseconds |
| `PosixClock.MachTicksToMsAsWritten` | src/platform/posix/posix_clock.c:62 | the Mach path as written is the scaled tick count divided by 10^7 |
| `PosixClock.MachTicksToMs` | src/platform/posix/posix_clock.c:62 | the corrected Mach path is the whole milliseconds in `ticks*numer/denom` nanoseconds |
| `PosixClock.MachAsWrittenIsOneTenth` | src/platform/posix/posix_clock.c:62 | the value as written equals `((ticks*numer/denom)/1000000)/10`, one tenth of the corrected value, truncated |
| `PosixClock.MachTicksToMsMonotone` | src/platform/posix/posix_clock.c:58-62 | more ticks never give fewer nanoseconds or milliseconds, with either divisor |
| `PosixClock.MachTicksToMsAgreesWithTimespec` | src/platform/posix/posix_clock.c:37-62 | with the 10^6 divisor, a tick count and a timespec that stand for the same nanosecond give the same `nni_time` on both Apple paths |
| `PosixClock.MachTicksToMsAsWrittenDisagrees` | src/platform/posix/posix_clock.c:62 | with the divisor as written, one second reads as 100 ms on the tick path and as 1000 ms on the clock_gettime path |
| `PosixClock.ClockGettimeClock` | src/platform/posix/posix_clock.c:82-90 | panics exactly when clock_gettime fails; otherwise the result is the whole milliseconds of the reading |
| `PosixClock.AppleClock` | src/platform/posix/posix_clock.c:34-62 | with the probe true it is the clock_gettime path and panics exactly when that call fails; with the probe false it never panics and gives the whole milliseconds of the scaled tick count |
| `PosixClock.LegacyClock` | src/platform/posix/posix_clock.c:133-140 | panics exactly when gettimeofday fails; otherwise the result is the whole milliseconds of the reading |
| `PosixSleep.NanosleepMsleep` | src/platform/posix/posix_clock.c:95-109 | no nanosleep call for 0 ms and at least one otherwise; the first call asks for the whole split duration; every call but the last was interrupted with a non-zero remainder, and the next call asked for exactly that remainder; the last call returned 0 or left nothing; every request is a valid timespec; the calls together slept exactly `ms * 10^6` ns |
| `PosixSleep.RetriedSleptNs` | src/platform/posix/posix_clock.c:104-108 | feeding each interrupted call's remainder back as the next request loses no time: a trace of such retries slept exactly its first request less what its last call left (nothing if that call returned 0) |
| `PosixSleep.PollMsleep` | src/platform/posix/posix_clock.c:163-169 | the loop stops at the first reading at or past `expire = start + ms`, so at least `ms` elapsed between the first and last readings; each poll timeout is `expire - now > 0` for a reading short of the deadline; for `ms <= 0` no poll is made |

## Left out

- The system calls `clock_gettime`, `gettimeofday`, `mach_absolute_time`, `mach_timebase_info`, `nanosleep` and `poll` are not modelled. Their results are parameters (for `nni_clock`) or oracles indexed by call number (for `nni_msleep`), because what they return depends on real time.
- The panic message and `strerror(errno)` are not modelled. A failed query is the `Panic` outcome, since nothing after `nni_panic` runs.
- The `#if 0` Mach clock-service block (lines 64-78) is not modelled because it is never compiled.
- Build-time backend selection (`NNG_USE_GETTIMEOFDAY`, `__APPLE__`, `MAC_OS_X_VERSION_10_12`) is not modelled. Each variant is its own member, and the `__builtin_available` probe is a boolean parameter of `AppleClock`.
- `mach_timebase_info`'s return code is ignored by the source and so by the model. A zero `denom` is excluded by a precondition, because the source would divide by zero.
- Thread safety and real elapsed wall time are not modelled: they are concurrency and physical-time claims.
- Fixed-width arithmetic is not modelled: the 64-bit overflow of `tv_sec*1000` and `ticks*numer`, the unsigned wrap of `now + ms` when `ms < -now`, and the `(int)` cast of the poll timeout.
- NanosleepMsleep: requires `ms >= 0`. A negative duration splits into a negative timespec, which nanosleep rejects with EINVAL without writing back a remainder, so the loop at lines 104-108 would call nanosleep with the same request for ever; that non-terminating path is not modelled.
- NanosleepMsleep: covers only runs in which some call is not interrupted (`EventuallyFinishes`), because the C loop need not end under endless interruptions. It also assumes an interrupted call writes back a valid remainder (`RemaindersAreDurations`). It counts the time the kernel was asked to sleep, not any oversleep.
- PollMsleep: covers only runs in which some clock reading reaches the deadline (`EventuallyReaches`), because the C loop need not end if the wall clock never gets there. A wall clock that jumps backwards is allowed. A `gettimeofday` failure inside the loop is not modelled: each reading is a `Timeval`.
- `AppleClock` uses the corrected Mach divisor (see Findings). The source's 10^7 is `MachTicksToMsAsWritten`.

## Findings

| source | as written | input that shows it | evidently intended | confidence | as-written member | corrected member |
|---|---|---|---|---|---|---|
| src/platform/posix/posix_clock.c:62 | `((absolute_time * numer) / denom) / 10000000` divides nanoseconds by 10^7 | 10^9 ticks on a 1/1 timebase (one second): the tick path gives 100 ms, the clock_gettime path gives 1000 ms for the same instant | divide by 10^6, so the tick path gives whole milliseconds like the other paths | high: not executed, follows from the arithmetic | `PosixClock.MachTicksToMsAsWritten` (with `PosixClock.MachAsWrittenIsOneTenth` and `PosixClock.MachTicksToMsAsWrittenDisagrees`) | `PosixClock.MachTicksToMs` (with `PosixClock.MachTicksToMsAgreesWithTimespec`) |
