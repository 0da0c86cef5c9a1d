/** The two stopwatches of hlspxd (hlspxd/src/platform.h:63-71, 100-114). */
module Stopwatch {
  import opened CNumbers

  // ---------- The POSIX stopwatch ----------

  const NANOS := 1_000_000_000
  const NANOS_PER_MS := 1_000_000

  // A reading of the monotonic clock.
  datatype Time = Time(sec: int, nsec: int) {
    ghost predicate Normal() { 0 <= sec && 0 <= nsec < NANOS }

    function Nanos(): int { sec * NANOS + nsec }
  }

  function PosixElapsed(start: Time, now: Time): int {
    if start.sec == 0 then 0
    else (now.sec - start.sec) * 1000 + CDiv(now.nsec - start.nsec, NANOS_PER_MS)
  }

  lemma TruncationError(d: int)
    ensures -NANOS_PER_MS < CDiv(d, NANOS_PER_MS) * NANOS_PER_MS - d < NANOS_PER_MS
    ensures d >= 0 ==> CDiv(d, NANOS_PER_MS) == d / NANOS_PER_MS
    ensures d < 0 ==> CDiv(d, NANOS_PER_MS) == d / NANOS_PER_MS + if d % NANOS_PER_MS == 0 then 0 else 1
  {
  }

  lemma PosixWithinOne(start: Time, now: Time)
    requires start.sec != 0
    ensures -NANOS_PER_MS < PosixElapsed(start, now) * NANOS_PER_MS - (now.Nanos() - start.Nanos()) < NANOS_PER_MS
  {
    TruncationError(now.nsec - start.nsec);
  }

  class PosixStopwatch {
    var startTime: Time

    constructor ()
      ensures startTime.sec == 0
    {
      // tv_nsec stays unset
      var nsec: int := *;
      startTime := Time(0, nsec);
    }

    method Start(now: Time)
      modifies this
      ensures startTime == now
    {
      startTime := now;
    }

    method Stop()
      modifies this
      ensures startTime == old(startTime).(sec := 0)
    {
      startTime := startTime.(sec := 0);
    }

    /** Within one millisecond of the time since the start, once running. */
    method Elapsed(now: Time) returns (ms: int)
      ensures ms == PosixElapsed(startTime, now)
      ensures startTime.sec == 0 ==> ms == 0
      ensures startTime.sec != 0 ==>
                var nanos := (now.sec - startTime.sec) * 1_000_000_000 + (now.nsec - startTime.nsec);
                -1_000_000 < ms * 1_000_000 - nanos < 1_000_000
    {
      if startTime.sec == 0 { return 0; }
      PosixWithinOne(startTime, now);
      ms := (now.sec - startTime.sec) * 1000 + CDiv(now.nsec - startTime.nsec, NANOS_PER_MS);
    }
  }

  /** Because the division truncates, the result is the whole milliseconds gone by or one
      more: one more exactly when the nanosecond part went down by no whole number of
      milliseconds. */
  lemma PosixRounding(start: Time, now: Time)
    requires start.sec != 0
    ensures PosixElapsed(start, now)
         == (now.Nanos() - start.Nanos()) / NANOS_PER_MS
            + if now.nsec < start.nsec && (now.nsec - start.nsec) % NANOS_PER_MS != 0 then 1 else 0
  {
    TruncationError(now.nsec - start.nsec);
  }

  lemma CDivMonotone(x: int, y: int)
    requires x <= y
    ensures CDiv(x, NANOS_PER_MS) <= CDiv(y, NANOS_PER_MS)
  {
  }

  lemma CDivSecond(x: int)
    ensures CDiv(x, NANOS_PER_MS) <= 1000 + CDiv(x - NANOS, NANOS_PER_MS)
  {
  }

  /** The result never goes back while the clock advances. */
  lemma PosixMonotone(start: Time, a: Time, b: Time)
    requires a.Normal() && b.Normal() && a.Nanos() <= b.Nanos()
    ensures PosixElapsed(start, a) <= PosixElapsed(start, b)
  {
    hide CDiv;
    if a.sec < b.sec {
      CDivSecond(a.nsec - start.nsec);
      CDivMonotone(a.nsec - start.nsec - NANOS, b.nsec - start.nsec);
    } else {
      CDivMonotone(a.nsec - start.nsec, b.nsec - start.nsec);
    }
  }

  /** The reading is good to a millisecond at all later times exactly when the clock was
      past its first second at the start: second zero doubles as "not running". */
  lemma PosixGoodIff(start: Time)
    requires start.Normal()
    ensures start.sec != 0 <==>
            forall now: Time :: now.Normal() && now.Nanos() >= start.Nanos() ==>
              -NANOS_PER_MS < PosixElapsed(start, now) * NANOS_PER_MS - (now.Nanos() - start.Nanos()) < NANOS_PER_MS
  {
    if start.sec != 0 {
      forall now: Time | now.Normal() && now.Nanos() >= start.Nanos()
        ensures -NANOS_PER_MS < PosixElapsed(start, now) * NANOS_PER_MS - (now.Nanos() - start.Nanos()) < NANOS_PER_MS
      {
        PosixWithinOne(start, now);
      }
    } else {
      var later := Time(1, start.nsec);
      assert later.Normal() && later.Nanos() >= start.Nanos();
      assert PosixElapsed(start, later) == 0;
    }
  }

  // ---------- The Windows stopwatch ----------

  const WORD := 0x1_0000_0000

  // DWORD subtraction.
  function Sub32(a: int, b: int): int { (a - b) % WORD }

  function WindowsElapsed(start: int, tick: int): int {
    if start == 0 then 0 else Sub32(tick, start)
  }

  // The tick counter at a time in milliseconds since the system started.
  function Tick(ms: int): int { ms % WORD }

  lemma RemainderUnique(n: int, q: int, r: int)
    requires n == q * WORD + r && 0 <= r < WORD
    ensures n % WORD == r
  {
  }

  lemma WholeWords(x: int, k: int)
    ensures (x - k * WORD) % WORD == x % WORD
  {
    var q, r := x / WORD, x % WORD;
    assert x - k * WORD == (q - k) * WORD + r;
    RemainderUnique(x - k * WORD, q - k, r);
  }

  /** Across any number of counter wraps, the result is the true span modulo 2^32, so it is
      the span exactly when that is below 2^32 milliseconds. */
  lemma WindowsExact(from: int, to: int)
    requires 0 <= from <= to && Tick(from) != 0
    ensures WindowsElapsed(Tick(from), Tick(to)) == (to - from) % WORD
    ensures WindowsElapsed(Tick(from), Tick(to)) == to - from <==> to - from < WORD
  {
    var a, b := from / WORD, to / WORD;
    assert from == a * WORD + Tick(from) && to == b * WORD + Tick(to);
    assert Tick(to) - Tick(from) == (to - from) - (b - a) * WORD;
    WholeWords(to - from, b - a);
  }

  class WindowsStopwatch {
    var startTime: int

    ghost predicate Valid()
      reads this
    {
      0 <= startTime < WORD
    }

    constructor ()
      ensures Valid() && startTime == 0
    {
      startTime := 0;
    }

    method Start(tick: int)
      requires 0 <= tick < WORD
      modifies this
      ensures Valid() && startTime == tick
    {
      startTime := tick;
    }

    method Stop()
      modifies this
      ensures Valid() && startTime == 0
    {
      startTime := 0;
    }

    /** Zero when stopped; otherwise, at whatever times the two ticks were read, the time
        between them modulo 2^32. */
    method Elapsed(tick: int) returns (ms: int)
      requires Valid() && 0 <= tick < WORD
      ensures startTime == 0 ==> ms == 0
      ensures startTime != 0 ==>
                forall from, to :: 0 <= from <= to && Tick(from) == startTime && Tick(to) == tick ==>
                  ms == (to - from) % 0x1_0000_0000
    {
      ms := if startTime == 0 then 0 else Sub32(tick, startTime);
      if startTime != 0 {
        forall from, to | 0 <= from <= to && Tick(from) == startTime && Tick(to) == tick
          ensures ms == (to - from) % WORD
        {
          WindowsExact(from, to);
        }
      }
    }
  }

  /** A start on a tick of zero reads as "not running"; any other start is exact for all
      spans below 2^32 milliseconds. */
  lemma WindowsGoodIff(from: int)
    requires 0 <= from
    ensures Tick(from) != 0 <==>
            forall to :: from <= to < from + WORD ==> WindowsElapsed(Tick(from), Tick(to)) == to - from
  {
    if Tick(from) != 0 {
      forall to | from <= to < from + WORD ensures WindowsElapsed(Tick(from), Tick(to)) == to - from {
        WindowsExact(from, to);
      }
    } else {
      assert WindowsElapsed(Tick(from), Tick(from + 1)) == 0;
    }
  }

  lemma RemainderBelow(n: nat)
    ensures n % WORD <= n
  {
  }

  lemma OneWrapLess(span: int)
    requires span >= WORD
    ensures span % WORD <= span - WORD
  {
    WholeWords(span, 1);
    RemainderBelow(span - WORD);
  }

  /** On the same span the two stopwatches differ by at most one millisecond exactly when
      the tick counter, wraps included, advanced by less than 2^32. */
  lemma StopwatchesAgree(start: Time, now: Time)
    requires start.Normal() && now.Normal() && start.sec != 0 && start.Nanos() <= now.Nanos()
    requires Tick(start.Nanos() / NANOS_PER_MS) != 0
    ensures -1 <= PosixElapsed(start, now)
                  - WindowsElapsed(Tick(start.Nanos() / NANOS_PER_MS), Tick(now.Nanos() / NANOS_PER_MS)) <= 1
       <==> now.Nanos() / NANOS_PER_MS - start.Nanos() / NANOS_PER_MS < WORD
  {
    var from, to := start.Nanos() / NANOS_PER_MS, now.Nanos() / NANOS_PER_MS;
    PosixWithinOne(start, now);
    WindowsExact(from, to);
    if to - from >= WORD { OneWrapLess(to - from); }
  }

  /** After 2^32 milliseconds the Windows stopwatch reads zero and the POSIX one the span. */
  lemma LongSpanDisagrees()
    ensures var start, now := Time(1, 0), Time(4_294_968, 296_000_000);
            && start.Normal() && now.Normal()
            && PosixElapsed(start, now) == 4_294_967_296
            && WindowsElapsed(Tick(start.Nanos() / NANOS_PER_MS), Tick(now.Nanos() / NANOS_PER_MS)) == 0
  {
  }
}
