/**
  The two `nni_msleep` variants of the POSIX platform layer.

  The system calls are not modelled: the operating system is an oracle passed
  in as a function of the call number: the k-th `nanosleep` answers with
  `nanosleep(k, request)`, and the k-th `gettimeofday` reading is
  `gettimeofday(k)`. Every behaviour of the real calls is some such
  function. Each method returns the trace of the calls it issued, and its
  postconditions say exactly which calls those were and why the loop stopped.
 */
module PosixSleep {
  import opened PosixClock

  /**
    What one `nanosleep(&ts, &ts)` does: its return code, and what it wrote
    back into `ts` (the time not slept, when it was interrupted).
   */
  datatype SleepReply = SleepReply(rc: int, rem: Timespec)

  /** A request nanosleep accepts: a non-negative, normalised timespec. */
  predicate IsDuration(ts: Timespec) {
    ts.sec >= 0 && ValidTimespec(ts)
  }

  /** A reply after which the loop of `NanosleepMsleep` stops: success, or nothing left. */
  predicate Finishes(reply: SleepReply) {
    reply.rc == 0 || IsZero(reply.rem)
  }

  /** An interrupted nanosleep on a valid request writes back a valid remainder. */
  ghost predicate RemaindersAreDurations(nanosleep: (nat, Timespec) -> SleepReply) {
    forall k: nat, t: Timespec :: IsDuration(t) && nanosleep(k, t).rc != 0 ==> IsDuration(nanosleep(k, t).rem)
  }

  /** The k-th call finishes whatever it is asked. */
  ghost predicate CallFinishes(nanosleep: (nat, Timespec) -> SleepReply, k: nat) {
    forall t: Timespec :: Finishes(nanosleep(k, t))
  }

  /** Interruptions do not go on for ever: some call finishes whatever it is asked. */
  ghost predicate EventuallyFinishes(nanosleep: (nat, Timespec) -> SleepReply) {
    exists k: nat :: CallFinishes(nanosleep, k)
  }

  /**
    Nanoseconds the k-th call slept: all of the request when it returned 0,
    else the request less what it reported as remaining.
   */
  function CallSleptNs(reply: SleepReply, request: Timespec): int {
    if reply.rc == 0 then Nanos(request) else Nanos(request) - Nanos(reply.rem)
  }

  /** Nanoseconds slept by the calls of a trace, the i-th of which was `requests[i]`. */
  function SleptNs(nanosleep: (nat, Timespec) -> SleepReply, requests: seq<Timespec>): int {
    if requests == [] then
      0
    else
      var k := |requests| - 1;
      SleptNs(nanosleep, requests[..k]) + CallSleptNs(nanosleep(k, requests[k]), requests[k])
  }

  /** What the last call of a trace left unslept: nothing if it returned 0, else its remainder. */
  function LeftNs(nanosleep: (nat, Timespec) -> SleepReply, requests: seq<Timespec>): int
    requires requests != []
  {
    var k := |requests| - 1;
    var reply := nanosleep(k, requests[k]);
    if reply.rc == 0 then 0 else Nanos(reply.rem)
  }

  /** Each call after the first asked for what the call before it wrote back on interruption. */
  predicate Retried(nanosleep: (nat, Timespec) -> SleepReply, requests: seq<Timespec>) {
    forall i :: 0 <= i < |requests| - 1 ==>
      nanosleep(i, requests[i]).rc != 0 && requests[i + 1] == nanosleep(i, requests[i]).rem
  }

  /**
    Retrying with the remainder loses no time: the calls of such a trace
    together slept the first request less what the last call left.
   */
  lemma {:induction false} RetriedSleptNs(nanosleep: (nat, Timespec) -> SleepReply, requests: seq<Timespec>)
    requires requests != []
    requires Retried(nanosleep, requests)
    ensures SleptNs(nanosleep, requests) == Nanos(requests[0]) - LeftNs(nanosleep, requests)
  {
    var k := |requests| - 1;
    if k > 0 {
      var prefix := requests[..k];
      assert Retried(nanosleep, prefix) by {
        forall i | 0 <= i < |prefix| - 1
          ensures nanosleep(i, prefix[i]).rc != 0 && prefix[i + 1] == nanosleep(i, prefix[i]).rem
        {
          assert prefix[i] == requests[i] && prefix[i + 1] == requests[i + 1];
        }
      }
      RetriedSleptNs(nanosleep, prefix);
      assert requests[k] == nanosleep(k - 1, requests[k - 1]).rem;
    }
  }

  /**
    What the loop of `NanosleepMsleep` has established on reaching its test:
    `requests` are the calls made so far and `ts` is what the last one wrote
    back. Every request was valid; the first was the whole duration; every
    call was interrupted, every call but the last left a non-zero remainder,
    and each call asked for the remainder of the one before; and the time
    slept plus the time in `ts` is the whole duration.
   */
  ghost predicate Sleeping(nanosleep: (nat, Timespec) -> SleepReply, ms: int, requests: seq<Timespec>, ts: Timespec) {
    && IsDuration(ts)
    && (requests == [] ==> ts == MsToTimespec(ms))
    && (requests != [] ==> requests[0] == MsToTimespec(ms) && ms != 0)
    && (forall i :: 0 <= i < |requests| ==> IsDuration(requests[i]))
    && (forall i :: 0 <= i < |requests| - 1 ==>
          !Finishes(nanosleep(i, requests[i])) && requests[i + 1] == nanosleep(i, requests[i]).rem)
    && (requests != [] ==>
          var reply := nanosleep(|requests| - 1, requests[|requests| - 1]);
          reply.rc != 0 && ts == reply.rem)
    && SleptNs(nanosleep, requests) + Nanos(ts) == ms * NanosPerMs
  }

  /**
    What `NanosleepMsleep` promises of the calls it made: none for 0 ms; the
    first asked for the whole duration; all were valid; every call but the
    last was interrupted with time left and the next asked for exactly that
    remainder; the last returned 0 or left nothing; and together they slept
    exactly the duration.
   */
  ghost predicate Slept(nanosleep: (nat, Timespec) -> SleepReply, ms: int, requests: seq<Timespec>) {
    && (requests == [] <==> ms == 0)
    && (requests != [] ==> requests[0] == MsToTimespec(ms))
    && (forall i :: 0 <= i < |requests| ==> IsDuration(requests[i]))
    && (forall i :: 0 <= i < |requests| - 1 ==>
          !Finishes(nanosleep(i, requests[i])) && requests[i + 1] == nanosleep(i, requests[i]).rem)
    && (requests != [] ==> Finishes(nanosleep(|requests| - 1, requests[|requests| - 1])))
    && SleptNs(nanosleep, requests) == ms * NanosPerMs
  }

  lemma SleepingInit(nanosleep: (nat, Timespec) -> SleepReply, ms: int)
    requires ms >= 0
    ensures Sleeping(nanosleep, ms, [], MsToTimespec(ms))
  {
  }

  /** An interrupted call on the non-zero `ts` keeps the loop's invariant, one call further on. */
  lemma SleepingInterrupted(nanosleep: (nat, Timespec) -> SleepReply, ms: int, requests: seq<Timespec>, ts: Timespec)
    requires RemaindersAreDurations(nanosleep)
    requires Sleeping(nanosleep, ms, requests, ts)
    requires !IsZero(ts)
    requires nanosleep(|requests|, ts).rc != 0
    ensures Sleeping(nanosleep, ms, requests + [ts], nanosleep(|requests|, ts).rem)
  {
  }

  /** While time is left, no call so far finished, so the loop is short of the call that must. */
  lemma SleepingBounded(nanosleep: (nat, Timespec) -> SleepReply, ms: int, requests: seq<Timespec>, ts: Timespec, last: nat)
    requires Sleeping(nanosleep, ms, requests, ts)
    requires !IsZero(ts)
    requires CallFinishes(nanosleep, last)
    requires |requests| <= last + 1
    ensures |requests| <= last
  {
  }

  /** A call that returns 0 ends the loop with the promise kept. */
  lemma SleepingSucceeded(nanosleep: (nat, Timespec) -> SleepReply, ms: int, requests: seq<Timespec>, ts: Timespec)
    requires Sleeping(nanosleep, ms, requests, ts)
    requires !IsZero(ts)
    requires nanosleep(|requests|, ts).rc == 0
    ensures Slept(nanosleep, ms, requests + [ts])
  {
  }

  /** Nothing left to sleep ends the loop with the promise kept. */
  lemma SleepingDone(nanosleep: (nat, Timespec) -> SleepReply, ms: int, requests: seq<Timespec>, ts: Timespec)
    requires Sleeping(nanosleep, ms, requests, ts)
    requires IsZero(ts)
    ensures Slept(nanosleep, ms, requests)
  {
  }

  /**
    `nni_msleep` on a nanosleep build. The duration is split into a timespec;
    while it is not all zero, nanosleep is called on it and writes the
    remainder back into it; a call returning 0 ends the loop.

    The returned trace holds the request of every call in order. No call is
    made for 0 ms; the first asks for the whole duration; every call but the
    last was interrupted with time left, and the next asked for exactly that
    remainder; the last returned 0 or left nothing. Together the calls slept
    exactly the requested duration.
   */
  method NanosleepMsleep(ms: int, nanosleep: (nat, Timespec) -> SleepReply) returns (requests: seq<Timespec>)
    requires ms >= 0
    requires RemaindersAreDurations(nanosleep)
    requires EventuallyFinishes(nanosleep)
    ensures requests == [] <==> ms == 0
    ensures requests != [] ==> requests[0] == MsToTimespec(ms)
    ensures forall i :: 0 <= i < |requests| ==> IsDuration(requests[i])
    ensures forall i :: 0 <= i < |requests| - 1 ==>
      !Finishes(nanosleep(i, requests[i])) && requests[i + 1] == nanosleep(i, requests[i]).rem
    ensures requests != [] ==> Finishes(nanosleep(|requests| - 1, requests[|requests| - 1]))
    ensures SleptNs(nanosleep, requests) == ms * NanosPerMs
  {
    var ts := MsToTimespec(ms);
    ghost var last: nat :| CallFinishes(nanosleep, last);
    requests := [];
    SleepingInit(nanosleep, ms);
    while ts.sec != 0 || ts.nsec != 0
      invariant Sleeping(nanosleep, ms, requests, ts)
      invariant |requests| <= last + 1
      decreases last + 1 - |requests|
    {
      SleepingBounded(nanosleep, ms, requests, ts, last);
      var reply := nanosleep(|requests|, ts);
      if reply.rc == 0 {
        SleepingSucceeded(nanosleep, ms, requests, ts);
        requests := requests + [ts];
        break;
      }
      SleepingInterrupted(nanosleep, ms, requests, ts);
      requests := requests + [ts];
      ts := reply.rem;
    }
    if IsZero(ts) {
      // The loop test failed rather than a call succeeding.
      SleepingDone(nanosleep, ms, requests, ts);
    }
    assert Slept(nanosleep, ms, requests);
  }

  /** The reading of `nni_clock` the k-th `gettimeofday` gives. */
  function ReadingMs(gettimeofday: nat -> Timeval, k: nat): int {
    TimevalToMs(gettimeofday(k))
  }

  /** The wall clock does not stop short of the deadline for ever. */
  ghost predicate EventuallyReaches(gettimeofday: nat -> Timeval, deadline: int) {
    exists k: nat :: ReadingMs(gettimeofday, k) >= deadline
  }

  /**
    `nni_msleep` on a gettimeofday build. It reads the clock, sets
    `expire = now + ms`, and while `now < expire` polls no descriptors for
    `expire - now` milliseconds and reads the clock again.

    The returned trace holds the timeout of every poll in order. The loop
    stops at the first reading at or past the deadline, so at least `ms` has
    elapsed between the first reading and the last; every reading before it
    was short of the deadline, and every timeout was the positive time left.
    For `ms <= 0` no poll is made.
   */
  method PollMsleep(ms: int, gettimeofday: nat -> Timeval) returns (timeouts: seq<int>)
    requires EventuallyReaches(gettimeofday, ReadingMs(gettimeofday, 0) + ms)
    ensures ReadingMs(gettimeofday, |timeouts|) - ReadingMs(gettimeofday, 0) >= ms
    ensures forall i :: 0 <= i < |timeouts| ==>
      ReadingMs(gettimeofday, i) < ReadingMs(gettimeofday, 0) + ms &&
      timeouts[i] == ReadingMs(gettimeofday, 0) + ms - ReadingMs(gettimeofday, i)
    ensures forall i :: 0 <= i < |timeouts| ==> timeouts[i] > 0
    ensures ms <= 0 ==> timeouts == []
  {
    var now := TimevalToMs(gettimeofday(0));
    var expire := now + ms;
    ghost var last: nat :| ReadingMs(gettimeofday, last) >= expire;
    timeouts := [];
    while now < expire
      invariant |timeouts| <= last
      invariant now == ReadingMs(gettimeofday, |timeouts|)
      invariant forall i :: 0 <= i < |timeouts| ==>
        ReadingMs(gettimeofday, i) < expire && timeouts[i] == expire - ReadingMs(gettimeofday, i)
      decreases last - |timeouts|
    {
      timeouts := timeouts + [expire - now];
      now := TimevalToMs(gettimeofday(|timeouts|));
    }
  }
}
