/**
 * Integer time helpers of commonCode/timeHelper.c: timespec and timeval
 * values, their ordering and conversions to nanosecond or microsecond counts
 * with the C types' wrap-around, the clock parameter and clock name tables.
 * Pointer parameters that are only read are modelled as values; a NULL
 * pointer, where the code tests for one, as None.
 */
module TimeHelper {
  import opened ByteOrder

  const BILLION: int := 1_000_000_000
  const MILLION: int := 1_000_000
  const NOERROR: int := 0
  const ERROR: int := -1

  /** struct timespec: seconds and nanoseconds (both C longs). */
  datatype Timespec = Timespec(sec: int, nsec: int)

  /** struct timeval: seconds and microseconds. */
  datatype Timeval = Timeval(sec: int, usec: int)

  datatype Option<T> = None | Some(value: T)

  /** The instant a timespec denotes, in nanoseconds. */
  function TotalNanos(t: Timespec): int
  {
    t.sec * BILLION + t.nsec
  }

  /** The instant a timeval denotes, in microseconds. */
  function TotalMicros(t: Timeval): int
  {
    t.sec * MILLION + t.usec
  }

  /** A timespec whose nanosecond field is in range. */
  predicate Normalised(t: Timespec)
  {
    0 <= t.nsec < BILLION
  }

  /** A timeval whose microsecond field is in range. */
  predicate TvNormalised(t: Timeval)
  {
    0 <= t.usec < MILLION
  }

  // ---------------------------------------------------------------------
  // isTS1GTTS2
  // ---------------------------------------------------------------------

  /** isTS1GTTS2: TS1 is later than TS2 in the lexicographic order on (sec, nsec). */
  function IsTS1GTTS2(ts1: Timespec, ts2: Timespec): (r: bool)
    ensures r ==> ts1 != ts2
  {
    ts1.sec > ts2.sec || (ts1.sec == ts2.sec && ts1.nsec > ts2.nsec)
  }

  /** The comparison is a strict total order: exactly one of >, == and < holds. */
  lemma IsTS1GTTS2Trichotomy(a: Timespec, b: Timespec)
    ensures !(IsTS1GTTS2(a, b) && IsTS1GTTS2(b, a))
    ensures IsTS1GTTS2(a, b) || IsTS1GTTS2(b, a) || a == b
  {
  }

  lemma IsTS1GTTS2Transitive(a: Timespec, b: Timespec, c: Timespec)
    requires IsTS1GTTS2(a, b) && IsTS1GTTS2(b, c)
    ensures IsTS1GTTS2(a, c)
  {
  }

  /** On normalised values the lexicographic order is the order of the instants. */
  lemma {:induction false} IsTS1GTTS2MatchesNanos(a: Timespec, b: Timespec)
    requires Normalised(a) && Normalised(b)
    ensures IsTS1GTTS2(a, b) <==> TotalNanos(a) > TotalNanos(b)
  {
    if a.sec > b.sec {
      SecondsDominate(a.sec, b.sec);
    } else if a.sec < b.sec {
      SecondsDominate(b.sec, a.sec);
    }
  }

  /** A later second starts at least a full second of nanoseconds later. */
  lemma SecondsDominate(x: int, y: int)
    requires x > y
    ensures x * BILLION >= y * BILLION + BILLION
  {
  }

  // ---------------------------------------------------------------------
  // isZeroTime, isLessThanOne
  // ---------------------------------------------------------------------

  /** isZeroTime: both fields zero; a NULL pointer also answers true. */
  function IsZeroTime(myTS: Option<Timespec>): (r: bool)
    ensures myTS.None? ==> r
    ensures myTS.Some? && Normalised(myTS.value) ==> (r <==> TotalNanos(myTS.value) == 0)
  {
    match myTS
    case None => true
    case Some(t) => t.sec == 0 && t.nsec == 0
  }

  /** isLessThanOne: the seconds field is zero; a NULL pointer also answers true. */
  function IsLessThanOne(myTS: Option<Timespec>): (r: bool)
    ensures myTS.None? ==> r
    ensures myTS.Some? && Normalised(myTS.value) && myTS.value.sec >= 0 ==>
              (r <==> TotalNanos(myTS.value) < BILLION)
  {
    match myTS
    case None => true
    case Some(t) => t.sec == 0
  }

  /** With nsec out of range, isLessThanOne answers true for more than a second. */
  lemma IsLessThanOneIgnoresNanos()
    ensures IsLessThanOne(Some(Timespec(0, 2 * BILLION)))
    ensures TotalNanos(Timespec(0, 2 * BILLION)) >= BILLION
  {
  }

  // ---------------------------------------------------------------------
  // getNanoSeconds, getTimeSpanTS, diffTSpecs
  // ---------------------------------------------------------------------

  /**
   * getNanoSeconds: the seconds converted to uint64, times 10^9, plus the
   * nanoseconds converted to uint64, all in wrapping 64-bit arithmetic.
   */
  function GetNanoSeconds(ts: Timespec): (r: uint64)
    ensures r == TotalNanos(ts) % TWO_64
    ensures 0 <= TotalNanos(ts) < TWO_64 ==> r == TotalNanos(ts)
  {
    var secs: uint64 := ts.sec % TWO_64;
    var nsecs: uint64 := ts.nsec % TWO_64;
    WrapMulAdd(ts.sec, ts.nsec);
    ((secs * BILLION) % TWO_64 + nsecs) % TWO_64
  }

  /** Reducing the factors first does not change sec * 10^9 + nsec modulo 2^64. */
  lemma WrapMulAdd(sec: int, nsec: int)
    ensures (((sec % TWO_64) * BILLION) % TWO_64 + nsec % TWO_64) % TWO_64
            == (sec * BILLION + nsec) % TWO_64
  {
    var q := sec / TWO_64;
    var x := (sec % TWO_64) * BILLION;
    // nsec reduced first, then the product reduced first
    ModAdd64(nsec, x % TWO_64);
    ModAdd64(x, nsec);
    // the dropped multiple of 2^64 in sec scales to a multiple of 2^64
    assert sec == q * TWO_64 + sec % TWO_64;
    assert sec * BILLION + nsec == (x + nsec) + (q * BILLION) * TWO_64;
    ModShift64(x + nsec, q * BILLION);
  }

  const UINT64_ERROR: uint64 := TWO_64 - 1

  /**
   * getTimeSpanTS: end minus start in nanoseconds, or ERROR (which is
   * 2^64 - 1 as a uint64) when the start converts to the larger count.
   */
  function GetTimeSpanTS(startTime: Timespec, endTime: Timespec): (r: uint64)
    ensures GetNanoSeconds(startTime) > GetNanoSeconds(endTime) ==> r == UINT64_ERROR
    ensures 0 <= TotalNanos(startTime) <= TotalNanos(endTime) < TWO_64 ==>
              r == TotalNanos(endTime) - TotalNanos(startTime)
  {
    var nsec2 := GetNanoSeconds(endTime);
    var nsec1 := GetNanoSeconds(startTime);
    if nsec1 > nsec2 then UINT64_ERROR else nsec2 - nsec1
  }

  /** A genuine span of 2^64 - 1 ns cannot be told apart from the error value. */
  lemma GetTimeSpanTSErrorIsAmbiguous()
    ensures GetTimeSpanTS(Timespec(0, 0), Timespec(18_446_744_073, 709_551_615)) == UINT64_ERROR
    ensures GetTimeSpanTS(Timespec(1, 0), Timespec(0, 0)) == UINT64_ERROR
  {
  }

  /**
   * diffTSpecs as written: the seconds difference times 10^9, plus
   * ts2's nanoseconds minus ts2's own nanoseconds, which is always 0.
   */
  function DiffTSpecsAsWritten(ts1: Timespec, ts2: Timespec): (r: uint64)
    ensures r == (ts2.sec - ts1.sec) * BILLION % TWO_64
  {
    WrapMulAdd(ts2.sec - ts1.sec, 0);
    (((ts2.sec - ts1.sec) % TWO_64) * BILLION % TWO_64 + (ts2.nsec - ts2.nsec) % TWO_64) % TWO_64
  }

  /** As written, a difference of 5 ns within the same second comes out as 0. */
  lemma DiffTSpecsAsWrittenDropsNanos()
    ensures DiffTSpecsAsWritten(Timespec(0, 0), Timespec(0, 5)) == 0
    ensures TotalNanos(Timespec(0, 5)) - TotalNanos(Timespec(0, 0)) == 5
  {
  }

  /** diffTSpecs as its documentation describes it: ts2 - ts1 in nanoseconds. */
  function DiffTSpecs(ts1: Timespec, ts2: Timespec): (r: uint64)
    ensures r == (TotalNanos(ts2) - TotalNanos(ts1)) % TWO_64
    ensures 0 <= TotalNanos(ts2) - TotalNanos(ts1) < TWO_64 ==> r == TotalNanos(ts2) - TotalNanos(ts1)
  {
    WrapMulAdd(ts2.sec - ts1.sec, ts2.nsec - ts1.nsec);
    (((ts2.sec - ts1.sec) % TWO_64) * BILLION % TWO_64 + (ts2.nsec - ts1.nsec) % TWO_64) % TWO_64
  }

  // ---------------------------------------------------------------------
  // getMicroseconds, getTimeSpan
  // ---------------------------------------------------------------------

  /** getMicroseconds: sec * 10^6 + usec, truncated to 32 bits. */
  function GetMicroseconds(t: Timeval): (r: uint32)
    ensures 0 <= TotalMicros(t) < TWO_32 ==> r == TotalMicros(t)
  {
    (t.sec * MILLION + t.usec) % TWO_32
  }

  /** getTimeSpan: the wrapping 32-bit difference of the two microsecond counts. */
  function GetTimeSpan(startTime: Timeval, endTime: Timeval): (r: uint32)
    ensures (GetMicroseconds(startTime) + r) % TWO_32 == GetMicroseconds(endTime)
  {
    (GetMicroseconds(endTime) - GetMicroseconds(startTime)) % TWO_32
  }

  /** The span is exact whenever the true span fits in 32 bits, even across a wrap. */
  lemma GetTimeSpanExact(startTime: Timeval, endTime: Timeval)
    requires 0 <= TotalMicros(endTime) - TotalMicros(startTime) < TWO_32
    ensures GetTimeSpan(startTime, endTime) == TotalMicros(endTime) - TotalMicros(startTime)
  {
    var d := TotalMicros(endTime) - TotalMicros(startTime);
    var a, b := TotalMicros(startTime), TotalMicros(endTime);
    assert GetMicroseconds(endTime) == b % TWO_32;
    assert GetMicroseconds(startTime) == a % TWO_32;
    assert (b % TWO_32 - a % TWO_32) % TWO_32 == (b - a) % TWO_32;
  }

  // ---------------------------------------------------------------------
  // glibc_nsec
  // ---------------------------------------------------------------------

  /**
   * glibc_nsec: the nanoseconds within the current second of a cycle count
   * tsc at freq cycles per second, computed in wrapping 64-bit arithmetic.
   */
  function GlibcNsec(tsc: uint64, freq: uint64): (r: uint64)
    requires freq > 0
    ensures (freq - 1) * BILLION < TWO_64 ==> r < BILLION && r == (tsc % freq) * BILLION / freq
  {
    GlibcNsecStep(tsc, freq);
    (tsc % freq * BILLION % TWO_64) / freq
  }

  /** The facts about (tsc mod freq) * 10^9 mod 2^64 / freq that glibc_nsec relies on. */
  lemma GlibcNsecStep(tsc: nat, freq: nat)
    requires freq > 0
    ensures 0 <= (tsc % freq * BILLION % TWO_64) / freq < TWO_64
    ensures (freq - 1) * BILLION < TWO_64 ==>
              (tsc % freq * BILLION % TWO_64) / freq == tsc % freq * BILLION / freq < BILLION
  {
    var rem: nat := tsc % freq;
    assert rem < freq;
    var wrapped: nat := rem * BILLION % TWO_64;
    DivAtMostSelf(wrapped, freq);
    assert wrapped / freq < TWO_64;
    if (freq - 1) * BILLION < TWO_64 {
      NoWrapBelow(rem, freq);
      assert wrapped == rem * BILLION;
    }
  }

  /** rem < freq keeps rem * 10^9 / freq below 10^9, and it does not wrap. */
  lemma NoWrapBelow(rem: nat, freq: nat)
    requires rem < freq && (freq - 1) * BILLION < TWO_64
    ensures rem * BILLION < TWO_64
    ensures rem * BILLION / freq < BILLION
  {
    assert rem * BILLION <= (freq - 1) * BILLION;
    var x := rem * BILLION;
    var q := x / freq;
    assert q * freq <= x by {
      assert x == q * freq + x % freq;
    }
    assert x < BILLION * freq;
    QuotientBelow(q, freq);
  }

  lemma QuotientBelow(q: int, f: int)
    requires f > 0 && q * f < BILLION * f
    ensures q < BILLION
  {
    assert (q - BILLION) * f < 0;
  }

  // ---------------------------------------------------------------------
  // Clock identifiers
  // ---------------------------------------------------------------------

  // System clock ids (Linux) and the program's own time source ids.
  const CLOCK_REALTIME: int := 0
  const CLOCK_MONOTONIC: int := 1
  const CLOCK_PROCESS_CPUTIME_ID: int := 2
  const CLOCK_MONOTONIC_RAW: int := 4
  const CLOCK_BOOTTIME: int := 7
  const CLOCK_ERRONEOUS: int := -1
  const CLOCK_UNKNOWN: int := 254
  const CLOCK_RDTSC: int := 32
  const CLOCK_TIME: int := 33
  const CLOCK_GETTIMEOFDAY: int := 34
  const CLOCK_RTC: int := 35
  const CLOCK_NTPSERVER: int := 37

  /** convertClockParam: the user's clock parameter 0..8 to a clock id. */
  function ConvertClockParam(clockParam: uint32): (id: int)
    ensures clockParam <= 8 <==> id != CLOCK_ERRONEOUS
  {
    match clockParam
    case 0 => CLOCK_GETTIMEOFDAY
    case 1 => CLOCK_REALTIME
    case 2 => CLOCK_MONOTONIC
    case 3 => CLOCK_MONOTONIC_RAW
    case 4 => CLOCK_PROCESS_CPUTIME_ID
    case 5 => CLOCK_RDTSC
    case 6 => CLOCK_TIME
    case 7 => CLOCK_RTC
    case 8 => CLOCK_NTPSERVER
    case _ => CLOCK_ERRONEOUS
  }

  /** Distinct valid parameters select distinct clocks. */
  lemma ConvertClockParamInjective(p: uint32, q: uint32)
    requires p <= 8 && q <= 8 && p != q
    ensures ConvertClockParam(p) != ConvertClockParam(q)
  {
  }

  /** ASCII lower-casing, as tolower does in the C locale. */
  function ToLower(c: char): char
  {
    if 'A' <= c <= 'Z' then (c as int + 32) as char else c
  }

  /** strcasecmp(a, b) == 0: equal lengths and equal characters up to ASCII case. */
  predicate EqualsIgnoringCase(a: seq<char>, b: seq<char>)
  {
    |a| == |b| && forall i :: 0 <= i < |a| ==> ToLower(a[i]) == ToLower(b[i])
  }

  /**
   * clockSourceStringToClockType as written: each test takes a nonzero
   * strcasecmp result, which means the strings DIFFER, as a match.
   */
  function ClockSourceStringToClockTypeAsWritten(myBuf: Option<seq<char>>): (id: int)
    ensures id == CLOCK_ERRONEOUS <==> myBuf.None?
    ensures myBuf.Some? ==>
      id == if EqualsIgnoringCase(myBuf.value, "CLOCK_REALTIME") then CLOCK_MONOTONIC else CLOCK_REALTIME
  {
    match myBuf
    case None => CLOCK_ERRONEOUS
    case Some(s) =>
      if !EqualsIgnoringCase(s, "CLOCK_REALTIME") then CLOCK_REALTIME
      else if !EqualsIgnoringCase(s, "CLOCK_MONOTONIC") then CLOCK_MONOTONIC
      else if !EqualsIgnoringCase(s, "CLOCK_MONOTONIC_RAW") then CLOCK_MONOTONIC_RAW
      else if !EqualsIgnoringCase(s, "CLOCK_PROCESS_CPUTIME_ID") then CLOCK_PROCESS_CPUTIME_ID
      else if !EqualsIgnoringCase(s, "CLOCK_RDTSC") then CLOCK_RDTSC
      else if !EqualsIgnoringCase(s, "CLOCK_BOOTTIME") then CLOCK_BOOTTIME
      else if !EqualsIgnoringCase(s, "CLOCK_TIME") then CLOCK_TIME
      else if !EqualsIgnoringCase(s, "CLOCK_gettimeofday") then CLOCK_GETTIMEOFDAY
      else CLOCK_UNKNOWN
  }

  /** clockSourceStringToClockType with the intended test: a zero strcasecmp is a match. */
  function ClockSourceStringToClockType(myBuf: Option<seq<char>>): (id: int)
    ensures id == CLOCK_ERRONEOUS <==> myBuf.None?
    ensures ClockName(id).Some? ==> EqualsIgnoringCase(myBuf.value, ClockName(id).value)
  {
    match myBuf
    case None => CLOCK_ERRONEOUS
    case Some(s) =>
      if EqualsIgnoringCase(s, "CLOCK_REALTIME") then CLOCK_REALTIME
      else if EqualsIgnoringCase(s, "CLOCK_MONOTONIC") then CLOCK_MONOTONIC
      else if EqualsIgnoringCase(s, "CLOCK_MONOTONIC_RAW") then CLOCK_MONOTONIC_RAW
      else if EqualsIgnoringCase(s, "CLOCK_PROCESS_CPUTIME_ID") then CLOCK_PROCESS_CPUTIME_ID
      else if EqualsIgnoringCase(s, "CLOCK_RDTSC") then CLOCK_RDTSC
      else if EqualsIgnoringCase(s, "CLOCK_BOOTTIME") then CLOCK_BOOTTIME
      else if EqualsIgnoringCase(s, "CLOCK_TIME") then CLOCK_TIME
      else if EqualsIgnoringCase(s, "CLOCK_gettimeofday") then CLOCK_GETTIMEOFDAY
      else CLOCK_UNKNOWN
  }

  /** The name clockSourceClockTypeToString writes for a clock id, if it knows the id. */
  function ClockName(clockID: int): (name: Option<seq<char>>)
    ensures name.Some? ==> |name.value| + 1 <= 32
  {
    if clockID == CLOCK_RDTSC then Some("CLOCK_RDTSC")
    else if clockID == CLOCK_REALTIME then Some("CLOCK_REALTIME")
    else if clockID == CLOCK_MONOTONIC then Some("CLOCK_MONOTONIC")
    else if clockID == CLOCK_MONOTONIC_RAW then Some("CLOCK_MONOTONIC_RAW")
    else if clockID == CLOCK_BOOTTIME then Some("CLOCK_BOOTTIME")
    else if clockID == CLOCK_TIME then Some("CLOCK_TIME")
    else if clockID == CLOCK_GETTIMEOFDAY then Some("CLOCK_gettimeofday")
    else None
  }

  /** Every name the printer writes is read back as the same clock id. */
  lemma ClockNameRoundTrip(clockID: int)
    requires ClockName(clockID).Some?
    ensures ClockSourceStringToClockType(ClockName(clockID)) == clockID
  {
    var n := ClockName(clockID).value;
    if clockID == CLOCK_BOOTTIME {
      assert ToLower(n[6]) != ToLower("CLOCK_REALTIME"[6]);
    }
  }

  /**
   * clockSourceClockTypeToString: writes the NUL-terminated name of the
   * clock into myBuf; ERROR for a NULL buffer, bufSize below 32 or an id it
   * has no name for (CLOCK_PROCESS_CPUTIME_ID among them).
   */
  method ClockSourceClockTypeToString(clockID: int, myBuf: array?<char>, bufSize: int)
    returns (rc: int)
    requires myBuf != null ==> bufSize <= myBuf.Length
    modifies myBuf
    ensures rc == NOERROR || rc == ERROR
    ensures rc == ERROR <==> myBuf == null || bufSize < 32 || ClockName(clockID).None?
    ensures rc == ERROR ==> myBuf == null || myBuf[..] == old(myBuf[..])
    ensures rc == NOERROR ==>
              var name := ClockName(clockID).value;
              myBuf[..|name| + 1] == name + ['\0'] &&
              myBuf[|name| + 1..] == old(myBuf[|name| + 1..])
  {
    if myBuf == null || bufSize < 32 {
      rc := ERROR;
    } else {
      var name := ClockName(clockID);
      if name.None? {
        rc := ERROR;
      } else {
        StrCpy(myBuf, name.value);
        rc := NOERROR;
      }
    }
  }

  /** strcpy: the characters of src followed by a NUL, at the start of dst. */
  method StrCpy(dst: array<char>, src: seq<char>)
    requires |src| < dst.Length
    modifies dst
    ensures dst[..|src| + 1] == src + ['\0']
    ensures dst[|src| + 1..] == old(dst[|src| + 1..])
  {
    var i := 0;
    while i < |src|
      invariant 0 <= i <= |src|
      invariant forall j :: 0 <= j < i ==> dst[j] == src[j]
      invariant forall j :: i <= j < dst.Length ==> dst[j] == old(dst[j])
    {
      dst[i] := src[i];
      i := i + 1;
    }
    dst[|src|] := '\0';
    assert dst[..|src| + 1] == src + ['\0'];
  }
}
