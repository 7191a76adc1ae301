/**
 * The integer delay helpers of commonCode/delayHelper.c: carry and borrow
 * arithmetic on timespec and timeval, their ordering and differences, the
 * split of a nanosecond count into a sleep request, and the busy-wait loops.
 *
 * The helpers that update a struct through a pointer are methods of
 * TimespecVar/TimevalVar, a C variable of that struct type; the helpers
 * that take struct copies are functions on the Timespec/Timeval values.
 * A clock is a sequence of successive clock_gettime readings.
 */
module DelayHelper {
  import opened ByteOrder
  import opened TimeHelper

  // ---------------------------------------------------------------------
  // Value arithmetic: what the pointer-updating helpers compute
  // ---------------------------------------------------------------------

  /**
   * timespec_add_nanos / timespec_add_ulong: add to the nanoseconds and carry
   * at most one second. The instant always moves by exactly nanos; the result
   * is normalised exactly when the sum needed at most one carry.
   */
  function TimespecAddNanos(t: Timespec, nanos: nat): (r: Timespec)
    ensures TotalNanos(r) == TotalNanos(t) + nanos
    ensures Normalised(t) ==> (Normalised(r) <==> t.nsec + nanos < 2 * BILLION)
  {
    var n := t.nsec + nanos;
    if n >= BILLION then Timespec(t.sec + 1, n - BILLION) else Timespec(t.sec, n)
  }

  /** timespec_add: field-wise sum with one carry; normalised inputs give a normalised sum. */
  function TimespecAdd(t0: Timespec, t1: Timespec): (r: Timespec)
    ensures TotalNanos(r) == TotalNanos(t0) + TotalNanos(t1)
    ensures Normalised(t0) && Normalised(t1) ==> Normalised(r)
  {
    var sec, nsec := t0.sec + t1.sec, t0.nsec + t1.nsec;
    if nsec >= BILLION then Timespec(sec + 1, nsec - BILLION) else Timespec(sec, nsec)
  }

  /** timeval_add_ulong: the microsecond version of timespec_add_ulong. */
  function TimevalAddUlong(t: Timeval, value: nat): (r: Timeval)
    ensures TotalMicros(r) == TotalMicros(t) + value
    ensures TvNormalised(t) ==> (TvNormalised(r) <==> t.usec + value < 2 * MILLION)
  {
    var u := t.usec + value;
    if u >= MILLION then Timeval(t.sec + 1, u - MILLION) else Timeval(t.sec, u)
  }

  // ---------------------------------------------------------------------
  // Struct variables updated through pointers
  // ---------------------------------------------------------------------

  /** A struct timespec variable that helpers update through a pointer. */
  class TimespecVar {
    var sec: int
    var nsec: int

    function Value(): Timespec
      reads this
    {
      Timespec(sec, nsec)
    }

    constructor (t: Timespec)
      ensures Value() == t
    {
      sec, nsec := t.sec, t.nsec;
    }

    /** timespec_add_nanos */
    method AddNanos(nanos: uint64)
      modifies this
      ensures Value() == TimespecAddNanos(old(Value()), nanos)
    {
      nsec := nsec + nanos;
      if nsec >= BILLION {
        sec := sec + 1;
        nsec := nsec - BILLION;
      }
    }

    /** timespec_add_ulong: the same computation as timespec_add_nanos. */
    method AddUlong(value: uint64)
      modifies this
      ensures Value() == TimespecAddNanos(old(Value()), value)
    {
      nsec := nsec + value;
      if nsec >= BILLION {
        sec := sec + 1;
        nsec := nsec - BILLION;
      }
    }

    /**
     * timespec_add(this, tv1): adds tv1 into this variable. When tv1 is this
     * same variable, each field is read before it is written, so the value
     * doubles.
     */
    method Add(tv1: TimespecVar)
      modifies this
      ensures Value() == TimespecAdd(old(Value()), old(tv1.Value()))
    {
      sec := sec + tv1.sec;
      nsec := nsec + tv1.nsec;
      if nsec >= BILLION {
        nsec := nsec - BILLION;
        sec := sec + 1;
      }
    }
  }

  /** A struct timeval variable that timeval_add_ulong updates through a pointer. */
  class TimevalVar {
    var sec: int
    var usec: int

    function Value(): Timeval
      reads this
    {
      Timeval(sec, usec)
    }

    constructor (t: Timeval)
      ensures Value() == t
    {
      sec, usec := t.sec, t.usec;
    }

    /** timeval_add_ulong */
    method AddUlong(value: uint64)
      modifies this
      ensures Value() == TimevalAddUlong(old(Value()), value)
    {
      usec := usec + value;
      if usec >= MILLION {
        sec := sec + 1;
        usec := usec - MILLION;
      }
    }
  }

  // ---------------------------------------------------------------------
  // Comparisons and differences of struct copies
  // ---------------------------------------------------------------------

  /** timespec_greaterthan(tv1, tv0): the same strict lexicographic order as isTS1GTTS2. */
  function TimespecGreaterThan(tv1: Timespec, tv0: Timespec): (r: bool)
    ensures r <==> IsTS1GTTS2(tv1, tv0)
  {
    tv1.sec > tv0.sec || (tv0.sec == tv1.sec && tv1.nsec > tv0.nsec)
  }

  /** timeval_greaterthan(tv1, tv0): strict lexicographic order on (sec, usec). */
  function TimevalGreaterThan(tv1: Timeval, tv0: Timeval): (r: bool)
    ensures r ==> tv1 != tv0
    ensures TvNormalised(tv1) && TvNormalised(tv0) ==> (r <==> TotalMicros(tv1) > TotalMicros(tv0))
  {
    assert TvNormalised(tv1) && TvNormalised(tv0) && tv1.sec != tv0.sec ==>
             (tv1.sec > tv0.sec <==> TotalMicros(tv1) > TotalMicros(tv0)) by {
      if tv1.sec > tv0.sec {
        SecondsDominateMicros(tv1.sec, tv0.sec);
      } else if tv0.sec > tv1.sec {
        SecondsDominateMicros(tv0.sec, tv1.sec);
      }
    }
    tv1.sec > tv0.sec || (tv0.sec == tv1.sec && tv1.usec > tv0.usec)
  }

  lemma SecondsDominateMicros(x: int, y: int)
    requires x > y
    ensures x * MILLION >= y * MILLION + MILLION
  {
  }

  /**
   * timespec_diff(tv1, tv0): borrows a second when tv1's nanoseconds are the
   * smaller, then combines the field differences. The borrow keeps the
   * instant, so in exact arithmetic the result is tv1 - tv0 in nanoseconds
   * whether or not the fields are normalised.
   */
  function TimespecDiff(tv1: Timespec, tv0: Timespec): (r: int)
    ensures r == TotalNanos(tv1) - TotalNanos(tv0)
    ensures Normalised(tv1) && Normalised(tv0) && !IsTS1GTTS2(tv0, tv1) ==> r >= 0
  {
    assert Normalised(tv1) && Normalised(tv0) ==>
      (IsTS1GTTS2(tv0, tv1) <==> TotalNanos(tv0) > TotalNanos(tv1)) by {
      if Normalised(tv1) && Normalised(tv0) {
        IsTS1GTTS2MatchesNanos(tv0, tv1);
      }
    }
    var t := if tv1.nsec < tv0.nsec then Timespec(tv1.sec - 1, tv1.nsec + BILLION) else tv1;
    (t.sec - tv0.sec) * BILLION + (t.nsec - tv0.nsec)
  }

  /** timeval_diff(tv1, tv0): tv1 - tv0 in microseconds, by the same borrow. */
  function TimevalDiff(tv1: Timeval, tv0: Timeval): (r: int)
    ensures r == TotalMicros(tv1) - TotalMicros(tv0)
    ensures TvNormalised(tv1) && TvNormalised(tv0) && !TimevalGreaterThan(tv0, tv1) ==> r >= 0
  {
    var t := if tv1.usec < tv0.usec then Timeval(tv1.sec - 1, tv1.usec + MILLION) else tv1;
    (t.sec - tv0.sec) * MILLION + (t.usec - tv0.usec)
  }

  // ---------------------------------------------------------------------
  // Sleep requests
  // ---------------------------------------------------------------------

  /**
   * A request nanosleep and clock_nanosleep accept: otherwise they fail with
   * EINVAL (tv_nsec outside 0..999999999 or a negative tv_sec).
   */
  predicate SleepRequestValid(req: Timespec)
  {
    req.sec >= 0 && Normalised(req)
  }

  const INT64_MIN: int := -0x8000_0000_0000_0000
  const INT64_MAX: int := 0x7FFF_FFFF_FFFF_FFFF

  /**
   * The split in nanoDelay: whole seconds are moved out while at least a
   * second remains. A non-negative count gives a valid request for exactly
   * that delay; a negative one is left in tv_nsec, which nanosleep rejects.
   */
  method NanoDelaySplit(ns: int) returns (req: Timespec)
    requires INT64_MIN <= ns <= INT64_MAX
    ensures ns >= 0 ==> SleepRequestValid(req) && TotalNanos(req) == ns
    ensures ns < 0 ==> req == Timespec(0, ns) && !SleepRequestValid(req)
  {
    var rest := ns;
    var sec := 0;
    while rest >= BILLION
      invariant sec >= 0 && sec * BILLION + rest == ns
      invariant ns < 0 ==> sec == 0 && rest == ns
      invariant ns >= 0 ==> rest >= 0
    {
      rest := rest - BILLION;
      sec := sec + 1;
    }
    req := Timespec(sec, rest);
  }

  /**
   * The split in clockNanoDelay as written: it moves out a second only while
   * MORE than a second remains, so a positive multiple of 10^9 leaves
   * tv_nsec == 10^9, a request clock_nanosleep rejects (and the process exits).
   */
  method ClockNanoDelaySplitAsWritten(delayNano: uint64) returns (req: Timespec)
    ensures TotalNanos(req) == delayNano && req.sec >= 0 && 0 <= req.nsec <= BILLION
    ensures SleepRequestValid(req) <==> delayNano == 0 || delayNano % BILLION != 0
  {
    var rest := delayNano;
    var sec := 0;
    while rest > BILLION
      invariant sec >= 0 && rest >= 0 && sec * BILLION + rest == delayNano
      invariant sec > 0 ==> rest > 0
    {
      sec := sec + 1;
      rest := rest - BILLION;
    }
    req := Timespec(sec, rest);
    RemainderOfSplit(sec, rest, delayNano);
  }

  /** A remainder in 1..10^9 after moving out sec seconds is 10^9 exactly on multiples. */
  lemma RemainderOfSplit(sec: nat, rest: int, d: nat)
    requires 0 <= rest <= BILLION && sec * BILLION + rest == d
    requires sec > 0 ==> rest > 0
    ensures rest == BILLION <==> d != 0 && d % BILLION == 0
  {
    if rest == BILLION {
      assert d == (sec + 1) * BILLION;
    } else if rest > 0 {
      assert d % BILLION == rest;
    }
  }

  /** The split in clockNanoDelay with the intended test: at least a second remains. */
  method ClockNanoDelaySplit(delayNano: uint64) returns (req: Timespec)
    ensures SleepRequestValid(req) && TotalNanos(req) == delayNano
  {
    var rest := delayNano;
    var sec := 0;
    while rest >= BILLION
      invariant sec >= 0 && rest >= 0 && sec * BILLION + rest == delayNano
    {
      sec := sec + 1;
      rest := rest - BILLION;
    }
    req := Timespec(sec, rest);
  }

  datatype DelayOutcome = Slept | ExitFailure

  /**
   * clockNanoDelay (Linux build), with the corrected split: clock_nanosleep
   * with the request, and exit(EXIT_FAILURE) if it fails. The sleep fails
   * when it is interrupted or the request is invalid.
   */
  method ClockNanoDelay(delayNano: uint64, interrupted: bool)
    returns (req: Timespec, outcome: DelayOutcome)
    ensures TotalNanos(req) == delayNano
    ensures outcome == ExitFailure <==> interrupted
  {
    req := ClockNanoDelaySplit(delayNano);
    var sleepFailed := interrupted || !SleepRequestValid(req);
    outcome := if sleepFailed then ExitFailure else Slept;
  }

  /**
   * clockNanoDelay as written: with its own split, a positive whole number
   * of seconds gives an invalid request, so the process exits then too.
   */
  method ClockNanoDelayAsWritten(delayNano: uint64, interrupted: bool)
    returns (req: Timespec, outcome: DelayOutcome)
    ensures TotalNanos(req) == delayNano
    ensures outcome == ExitFailure <==> interrupted || (delayNano > 0 && delayNano % BILLION == 0)
  {
    req := ClockNanoDelaySplitAsWritten(delayNano);
    var sleepFailed := interrupted || !SleepRequestValid(req);
    outcome := if sleepFailed then ExitFailure else Slept;
  }

  // ---------------------------------------------------------------------
  // Busy waits
  // ---------------------------------------------------------------------

  /**
   * busyWait: reads the clock until a reading is strictly later than the
   * target (isTS1GTTS2). Returns the index of that reading, or None when the
   * given readings run out first (the real loop keeps spinning).
   */
  method BusyWait(target: Timespec, clock: seq<Timespec>) returns (k: Option<nat>)
    ensures k.Some? ==> k.value < |clock| && IsTS1GTTS2(clock[k.value], target)
    ensures k.Some? ==> forall j :: 0 <= j < k.value ==> !IsTS1GTTS2(clock[j], target)
    ensures k.None? ==> forall j :: 0 <= j < |clock| ==> !IsTS1GTTS2(clock[j], target)
  {
    var i := 0;
    while i < |clock|
      invariant 0 <= i <= |clock|
      invariant forall j :: 0 <= j < i ==> !IsTS1GTTS2(clock[j], target)
    {
      if IsTS1GTTS2(clock[i], target) {
        return Some(i);
      }
      i := i + 1;
    }
    return None;
  }

  /**
   * delay_busyloop1: takes the start reading, adds nanos to it with
   * timespec_add_nanos, then reads the clock until a reading is later
   * (timespec_greaterthan) than that deadline.
   */
  method DelayBusyloop1(nanos: uint64, start: Timespec, clock: seq<Timespec>) returns (k: Option<nat>)
    ensures k.Some? ==> k.value < |clock|
    ensures k.Some? ==> TimespecGreaterThan(clock[k.value], TimespecAddNanos(start, nanos))
    ensures k.Some? ==> forall j :: 0 <= j < k.value ==>
              !TimespecGreaterThan(clock[j], TimespecAddNanos(start, nanos))
    ensures k.None? ==> forall j :: 0 <= j < |clock| ==>
              !TimespecGreaterThan(clock[j], TimespecAddNanos(start, nanos))
  {
    var t1 := new TimespecVar(start);
    t1.AddNanos(nanos);
    var deadline := t1.Value();
    var i := 0;
    while i < |clock|
      invariant 0 <= i <= |clock|
      invariant forall j :: 0 <= j < i ==> !TimespecGreaterThan(clock[j], deadline)
    {
      if TimespecGreaterThan(clock[i], deadline) {
        return Some(i);
      }
      i := i + 1;
    }
    return None;
  }

  /**
   * For a delay below a second from a normalised start, a normalised reading
   * that ends delay_busyloop1 is more than nanos after the start.
   */
  lemma DelayBusyloop1Waits(nanos: nat, start: Timespec, reading: Timespec)
    requires nanos < BILLION && Normalised(start) && Normalised(reading)
    requires TimespecGreaterThan(reading, TimespecAddNanos(start, nanos))
    ensures TotalNanos(reading) > TotalNanos(start) + nanos
  {
    IsTS1GTTS2MatchesNanos(reading, TimespecAddNanos(start, nanos));
  }

  /**
   * From two seconds on, the single carry leaves the deadline unnormalised
   * and the lexicographic test ends the wait early: from (0, 0) with a 3 s
   * delay, the reading (2, 0) already ends it.
   */
  lemma DelayBusyloop1EarlyForLongDelays()
    ensures TimespecGreaterThan(Timespec(2, 0), TimespecAddNanos(Timespec(0, 0), 3 * BILLION))
    ensures TotalNanos(Timespec(2, 0)) < TotalNanos(Timespec(0, 0)) + 3 * BILLION
  {
  }
}
