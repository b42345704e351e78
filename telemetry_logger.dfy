/** The counter logic of TelemetryLogger (telemetry_logger.cpp): every logged reading
    advances a running total and a batch counter, and the batch counter is cleared by a
    flush once it reaches the flush interval. The SD card itself (init, writeCSVLine,
    close) is not modelled; nothing here writes a reading anywhere, as in the source. */
module Telemetry {
  import opened ByteSink

  type Uint32 = x: int | 0 <= x < 0x1_0000_0000

  /** `x++` on a uint32_t. */
  function Inc32(x: Uint32): (y: Uint32)
    ensures x < 0xFFFF_FFFF ==> y == x + 1
    ensures x == 0xFFFF_FFFF ==> y == 0
  {
    (x + 1) % 0x1_0000_0000
  }

  /** One barometer reading; logReading takes it and never looks at it. */
  datatype BarometerReading = BarometerReading(timestamp: int, pressure: real, altitude: real, temperature: real)

  /** The batch counter after logReading: one more, and back to 0 when that reaches the
      interval (the flush it triggers always finds a nonzero count). */
  function NextBufferCount(count: Uint32, interval: Uint32): (next: Uint32)
    requires count < interval || count == 0
    ensures next == 0 <==> count + 1 >= interval
    ensures next != 0 ==> next == count + 1
    ensures next < interval || next == 0
  {
    if count + 1 >= interval then 0 else count + 1
  }

  /** The batch counter after n readings from an empty batch, with no other flush. */
  function BufferCountAfter(interval: Uint32, n: nat): (count: Uint32)
    ensures count < interval || count == 0
  {
    if n == 0 then 0 else NextBufferCount(BufferCountAfter(interval, n - 1), interval)
  }

  /** The batch fills one reading at a time up to the interval, and the reading that
      reaches the interval empties it. */
  lemma {:induction false} BatchFills(interval: Uint32, n: nat)
    requires n < interval
    ensures BufferCountAfter(interval, n) == n
    ensures n + 1 == interval ==> BufferCountAfter(interval, n + 1) == 0
  {
    if n > 0 {
      BatchFills(interval, n - 1);
    }
  }

  /** After the first full batch the counter repeats with period `interval`: it is the
      number of readings since the last flush. */
  lemma {:induction false} BatchPeriodic(interval: Uint32, n: nat)
    requires interval > 0
    ensures BufferCountAfter(interval, n + interval) == BufferCountAfter(interval, n)
  {
    if n == 0 {
      BatchFills(interval, interval - 1);
    } else {
      BatchPeriodic(interval, n - 1);
      assert n + interval - 1 == (n - 1) + interval;
    }
  }

  /** The default write priority, P_OPTIONAL. */
  const DefaultWritePriority: Char8 := 5

  /** The batch size the constructor takes when none is given. */
  const DefaultFlushInterval: Uint32 := 50

  class TelemetryLogger {
    var readingCount: Uint32
    var bufferCount: Uint32
    const flushInterval: Uint32
    var writePriority: Char8
    var headerWritten: bool
    /** How many readings were logged since construction, without the uint32 wrap. */
    ghost var logged: nat

    ghost predicate Valid()
      reads this
    {
      && readingCount == logged % 0x1_0000_0000
      && (bufferCount < flushInterval || bufferCount == 0)
    }

    /** The constructor: both counters 0, priority 5, no header yet; the flush interval
        is 50 unless one is given. */
    constructor (flushInterval: Uint32 := DefaultFlushInterval)
      ensures Valid()
      ensures readingCount == 0 && bufferCount == 0 && logged == 0
      ensures this.flushInterval == flushInterval
      ensures writePriority == DefaultWritePriority && !headerWritten
    {
      readingCount := 0;
      bufferCount := 0;
      this.flushInterval := flushInterval;
      writePriority := DefaultWritePriority;
      headerWritten := false;
      logged := 0;
    }

    /** getReadingCount: the readings logged since construction, modulo 2^32. */
    function GetReadingCount(): (n: Uint32)
      reads this
      ensures Valid() ==> n == logged % 0x1_0000_0000
    {
      readingCount
    }

    /** logReading: count the reading in both counters and flush once the batch counter
        reaches the interval; the answer is always true. */
    method LogReading(reading: BarometerReading) returns (ok: bool)
      requires Valid()
      modifies this`bufferCount, this`readingCount, this`logged
      ensures Valid() && ok
      ensures logged == old(logged) + 1
      ensures readingCount == Inc32(old(readingCount))
      ensures bufferCount == NextBufferCount(old(bufferCount), flushInterval)
    {
      logged := logged + 1;
      bufferCount := bufferCount + 1;
      readingCount := Inc32(readingCount);
      if bufferCount >= flushInterval {
        ok := Flush();
        return;
      }
      ok := true;
    }

    /** flush: clear the batch counter; with nothing pending it changes nothing. The
        answer is always true and the running total is left alone. */
    method Flush() returns (ok: bool)
      modifies this`bufferCount
      ensures ok && bufferCount == 0
    {
      if bufferCount == 0 {
        return true;
      }
      bufferCount := 0;
      return true;
    }

    /** setWritePriority: store the char as given. */
    method SetWritePriority(priority: Char8)
      modifies this`writePriority
      ensures writePriority == priority
    {
      writePriority := priority;
    }
  }
}
