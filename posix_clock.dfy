/**
  The three `nni_clock` variants of the POSIX platform layer.

  Each variant reads the operating system's clock once and turns the reading
  into an `nni_time`, a count of milliseconds since an arbitrary epoch. The
  readings are parameters here: `rc` is the return code of the query and the
  other arguments are what it wrote back. A failed query ends in `nni_panic`,
  modelled as the `Panic` outcome.
 */
module PosixClock {
  import opened CArith

  const MsPerSec: int := 1000
  const NanosPerMs: int := 1000000
  const NanosPerSec: int := 1000000000
  const MicrosPerMs: int := 1000
  const MicrosPerSec: int := 1000000

  /** The divisor the Mach tick path applies to a nanosecond count. */
  const MachDivisorAsWritten: int := 10000000

  /** `struct timespec`: seconds and nanoseconds. */
  datatype Timespec = Timespec(sec: int, nsec: int)

  /** `struct timeval`: seconds and microseconds. */
  datatype Timeval = Timeval(sec: int, usec: int)

  /** `mach_timebase_info_data_t`: ticks times numer over denom is nanoseconds. */
  datatype Timebase = Timebase(numer: nat, denom: nat)

  /** What a call of `nni_clock` ends in: a time, or a panic of the process. */
  datatype ClockResult = Time(ms: int) | Panic

  /** A timespec in the form the kernel writes one: the nanoseconds below one second. */
  predicate ValidTimespec(ts: Timespec) {
    0 <= ts.nsec < NanosPerSec
  }

  /** A timeval in the form the kernel writes one: the microseconds below one second. */
  predicate ValidTimeval(tv: Timeval) {
    0 <= tv.usec < MicrosPerSec
  }

  /** A timespec that is all zero: no time left to sleep. */
  predicate IsZero(ts: Timespec) {
    ts.sec == 0 && ts.nsec == 0
  }

  /** Lexicographic order on readings: `a` is no later than `b`. */
  predicate TimespecNotAfter(a: Timespec, b: Timespec) {
    a.sec < b.sec || (a.sec == b.sec && a.nsec <= b.nsec)
  }

  predicate TimevalNotAfter(a: Timeval, b: Timeval) {
    a.sec < b.sec || (a.sec == b.sec && a.usec <= b.usec)
  }

  /** The instant a timespec stands for, in nanoseconds. */
  function Nanos(ts: Timespec): int {
    ts.sec * NanosPerSec + ts.nsec
  }

  /** The instant a timeval stands for, in microseconds. */
  function Micros(tv: Timeval): int {
    tv.sec * MicrosPerSec + tv.usec
  }

  /**
    The timespec conversion of `nni_clock`: whole seconds scaled to
    milliseconds, plus the nanoseconds divided (truncating, as in C) by 10^6.
    For a kernel-written timespec the result lies within the reading's second.
   */
  function TimespecToMs(ts: Timespec): (ms: int)
    ensures ValidTimespec(ts) ==> ts.sec * MsPerSec <= ms <= ts.sec * MsPerSec + 999
  {
    ts.sec * MsPerSec + Quot(ts.nsec, NanosPerMs)
  }

  /** The timeval conversion of the gettimeofday `nni_clock`, in the same shape. */
  function TimevalToMs(tv: Timeval): (ms: int)
    ensures ValidTimeval(tv) ==> tv.sec * MsPerSec <= ms <= tv.sec * MsPerSec + 999
  {
    tv.sec * MsPerSec + Quot(tv.usec, MicrosPerMs)
  }

  /**
    The split at the head of the nanosleep `nni_msleep`: whole seconds, and
    the leftover milliseconds as nanoseconds, with C's `/` and `%`.
   */
  function MsToTimespec(ms: int): (ts: Timespec)
    ensures ms >= 0 ==> ts.sec >= 0 && 0 <= ts.nsec <= 999000000
    ensures IsZero(ts) <==> ms == 0
  {
    Timespec(Quot(ms, MsPerSec), Rem(ms, MsPerSec) * NanosPerMs)
  }

  /** For a non-negative duration the split is Euclidean: seconds are `ms / 1000`, nanoseconds `(ms % 1000) * 10^6`. */
  lemma MsToTimespecSplit(ms: int)
    requires ms >= 0
    ensures MsToTimespec(ms).sec == ms / MsPerSec
    ensures MsToTimespec(ms).nsec == (ms % MsPerSec) * NanosPerMs
    ensures ValidTimespec(MsToTimespec(ms))
  {
  }

  /** Converting the split back with the clock's conversion gives the duration again, for every `ms`. */
  lemma MsToTimespecRoundTrip(ms: int)
    ensures TimespecToMs(MsToTimespec(ms)) == ms
  {
  }

  /** A non-negative duration splits into exactly its own number of nanoseconds. */
  lemma MsToTimespecNanos(ms: int)
    requires ms >= 0
    ensures Nanos(MsToTimespec(ms)) == ms * NanosPerMs
  {
  }

  /**
    The timespec conversion truncates: its result is the number of whole
    milliseconds in the reading, and the sub-millisecond nanoseconds are dropped.
   */
  lemma TimespecToMsIsFloor(ts: Timespec)
    requires ValidTimespec(ts)
    ensures TimespecToMs(ts) == Nanos(ts) / NanosPerMs
    ensures TimespecToMs(ts) * NanosPerMs <= Nanos(ts) < TimespecToMs(ts) * NanosPerMs + NanosPerMs
  {
  }

  /** The timeval conversion likewise keeps the whole milliseconds of the reading. */
  lemma TimevalToMsIsFloor(tv: Timeval)
    requires ValidTimeval(tv)
    ensures TimevalToMs(tv) == Micros(tv) / MicrosPerMs
    ensures TimevalToMs(tv) * MicrosPerMs <= Micros(tv) < TimevalToMs(tv) * MicrosPerMs + MicrosPerMs
  {
  }

  /** A reading that is no earlier yields an `nni_time` that is no smaller. */
  lemma TimespecToMsMonotone(a: Timespec, b: Timespec)
    requires ValidTimespec(a) && ValidTimespec(b)
    requires TimespecNotAfter(a, b)
    ensures TimespecToMs(a) <= TimespecToMs(b)
  {
  }

  lemma TimevalToMsMonotone(a: Timeval, b: Timeval)
    requires ValidTimeval(a) && ValidTimeval(b)
    requires TimevalNotAfter(a, b)
    ensures TimevalToMs(a) <= TimevalToMs(b)
  {
  }

  /** The nanoseconds a Mach tick count stands for under a timebase. */
  function MachNanos(ticks: nat, tb: Timebase): nat
    requires tb.denom > 0
  {
    ticks * tb.numer / tb.denom
  }

  /** The Mach tick path exactly as the source computes it: nanoseconds divided by 10^7. */
  function MachTicksToMsAsWritten(ticks: nat, tb: Timebase): (ms: nat)
    requires tb.denom > 0
    ensures ms * MachDivisorAsWritten <= MachNanos(ticks, tb) < ms * MachDivisorAsWritten + MachDivisorAsWritten
  {
    MachNanos(ticks, tb) / MachDivisorAsWritten
  }

  /** The Mach tick path with the nanosecond-to-millisecond divisor, 10^6. */
  function MachTicksToMs(ticks: nat, tb: Timebase): (ms: nat)
    requires tb.denom > 0
    ensures ms * NanosPerMs <= MachNanos(ticks, tb) < ms * NanosPerMs + NanosPerMs
  {
    MachNanos(ticks, tb) / NanosPerMs
  }

  /** The divisor as written yields one tenth (truncated) of the true millisecond count. */
  lemma MachAsWrittenIsOneTenth(ticks: nat, tb: Timebase)
    requires tb.denom > 0
    ensures MachTicksToMsAsWritten(ticks, tb) == MachTicksToMs(ticks, tb) / 10
    ensures MachTicksToMsAsWritten(ticks, tb) == (MachNanos(ticks, tb) / 1000000) / 10
  {
  }

  /** More ticks never give fewer milliseconds, with either divisor. */
  lemma MachTicksToMsMonotone(ticks: nat, ticks': nat, tb: Timebase)
    requires tb.denom > 0
    requires ticks <= ticks'
    ensures MachNanos(ticks, tb) <= MachNanos(ticks', tb)
    ensures MachTicksToMs(ticks, tb) <= MachTicksToMs(ticks', tb)
    ensures MachTicksToMsAsWritten(ticks, tb) <= MachTicksToMsAsWritten(ticks', tb)
  {
    MulIsMonotone(ticks, ticks', tb.numer);
    DivIsMonotone(ticks * tb.numer, ticks' * tb.numer, tb.denom);
    DivIsMonotone(MachNanos(ticks, tb), MachNanos(ticks', tb), NanosPerMs);
    DivIsMonotone(MachNanos(ticks, tb), MachNanos(ticks', tb), MachDivisorAsWritten);
  }

  /**
    With the 10^6 divisor the Mach path and the clock_gettime path agree:
    a tick count and a timespec that stand for the same nanosecond give the
    same `nni_time`.
   */
  lemma MachTicksToMsAgreesWithTimespec(ticks: nat, tb: Timebase, ts: Timespec)
    requires tb.denom > 0
    requires ValidTimespec(ts)
    requires Nanos(ts) == MachNanos(ticks, tb)
    ensures MachTicksToMs(ticks, tb) == TimespecToMs(ts)
  {
  }

  /**
    With the divisor as written the two paths disagree: one second of ticks
    on a 1/1 timebase reads as 100 ms, the same second as a timespec as 1000 ms.
   */
  lemma MachTicksToMsAsWrittenDisagrees()
    ensures Nanos(Timespec(1, 0)) == MachNanos(1000000000, Timebase(1, 1))
    ensures TimespecToMs(Timespec(1, 0)) == 1000
    ensures MachTicksToMsAsWritten(1000000000, Timebase(1, 1)) == 100
  {
  }

  /** `nni_clock` on a clock_gettime build: panics when the query fails, else the reading's whole milliseconds. */
  function ClockGettimeClock(rc: int, ts: Timespec): (r: ClockResult)
    ensures r.Panic? <==> rc != 0
    ensures r.Time? && ValidTimespec(ts) ==> r.ms * NanosPerMs <= Nanos(ts) < r.ms * NanosPerMs + NanosPerMs
  {
    if rc != 0 then
      Panic
    else
      Time(TimespecToMs(ts))
  }

  /**
    `nni_clock` on an Apple build. When the runtime probe finds
    clock_gettime, it is the clock_gettime path; otherwise the Mach tick
    count scaled by the timebase, which never panics. The tick path uses
    the 10^6 divisor (see `MachTicksToMsAsWritten` for the source's 10^7).
   */
  function AppleClock(clockGettimeAvailable: bool, rc: int, ts: Timespec, ticks: nat, tb: Timebase): (r: ClockResult)
    requires tb.denom > 0
    ensures r.Panic? <==> clockGettimeAvailable && rc != 0
    ensures r.Time? && clockGettimeAvailable && ValidTimespec(ts) ==>
      r.ms * NanosPerMs <= Nanos(ts) < r.ms * NanosPerMs + NanosPerMs
    ensures r.Time? && !clockGettimeAvailable ==>
      r.ms * NanosPerMs <= MachNanos(ticks, tb) < r.ms * NanosPerMs + NanosPerMs
  {
    if clockGettimeAvailable then
      ClockGettimeClock(rc, ts)
    else
      Time(MachTicksToMs(ticks, tb))
  }

  /** `nni_clock` on a gettimeofday build: panics when the query fails, else the reading's whole milliseconds. */
  function LegacyClock(rc: int, tv: Timeval): (r: ClockResult)
    ensures r.Panic? <==> rc != 0
    ensures r.Time? && ValidTimeval(tv) ==> r.ms * MicrosPerMs <= Micros(tv) < r.ms * MicrosPerMs + MicrosPerMs
  {
    if rc != 0 then
      Panic
    else
      Time(TimevalToMs(tv))
  }
}
