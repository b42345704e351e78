/** The two-tier buffered storage engine of spi_flash/spiFlash.cpp (members declared in
    lib/sdcard.h): a primary buffer `obuff` flushed to the normal sink and an archival
    buffer `kbuff` flushed to the kernel-log sink, plus a queue of deferred writes. */
module SpiFlashStore {
  import opened ByteSink
  import opened IoQueue

  /** `err = flush() < 0` in buffer/kLog stores the comparison, not the flush result. */
  function OverflowFlushTest(flushResult: Char8): (err: int)
    ensures err == 0 || err == 1
    ensures err == 1 <==> flushResult < 0
  {
    if flushResult < 0 then 1 else 0
  }

  /** What buffer/kLog evidently mean to return when an overflow flush fails: the flush's
      own (negative) code, so that callers testing `< 0` see the failure. */
  function OverflowFlushTestIntended(flushResult: Char8): (err: int)
    ensures err < 0 <==> flushResult < 0
    ensures err != 0 <==> flushResult < 0
  {
    if flushResult < 0 then flushResult as int else 0
  }

  /** The as-written test turns every failure into the positive code 1. */
  lemma OverflowFailureLooksPositive()
    ensures OverflowFlushTest(-1) == 1 > 0
    ensures OverflowFlushTestIntended(-1) == -1
  {
  }

  /** kflush's result on a successful write of `count` bytes, as written: the byte count
      truncated to `char`. */
  function KFlushSuccessResult(count: nat): (r: Char8)
    ensures (r as int - count) % 256 == 0
  {
    ToChar(count)
  }

  /** What kflush evidently means to return on success (flush returns 0): a non-negative
      value, so kLog's `< 0` test reads only a real failure as one. */
  function KFlushSuccessResultIntended(count: nat): (r: Char8)
    ensures r >= 0
  {
    0
  }

  /** A successful flush of 200 archival bytes reads as a failure to kLog. */
  lemma KFlushTruncationExample()
    ensures KFlushSuccessResult(200) < 0
    ensures KFlushSuccessResult(2048) == 0
    ensures KFlushSuccessResultIntended(200) >= 0
  {
  }

  /** For every capacity, the intended result never reads as a failure, while the
      as-written one does exactly when count mod 256 is at least 128. */
  lemma KFlushTruncationCharacterised(count: nat)
    ensures KFlushSuccessResult(count) < 0 <==> count % 256 >= 128
    ensures KFlushSuccessResultIntended(count) >= 0
  {
  }

  /** 264 bytes into an empty 256-byte buffer leave 8 buffered after one full flush; into
      the default 512-byte buffer they all stay buffered. */
  lemma {:induction false} FillLevelExamples()
    ensures FillLevel(264, 256) == 8
    ensures FillLevel(264, 512) == 264
    ensures FillLevel(512 + 1, 512) == 1
  {
    assert FillLevel(8, 256) == 8;
    assert FillLevel(1, 512) == 1;
  }

  /** The write calls of k overflow rounds of buffer, as written: each round writes the full
      buffer (n bytes) and then, through the second flush, the 0 bytes left. */
  function OverflowWrites(k: nat, n: nat): (w: seq<nat>)
    ensures |w| == 2 * k
  {
    if k == 0 then [] else OverflowWrites(k - 1, n) + [n, 0]
  }

  /** The calls alternate: the even ones write the full buffer, the odd ones nothing. */
  lemma {:induction false} OverflowWritesAlternate(k: nat, n: nat)
    ensures forall i :: 0 <= i < 2 * k ==> OverflowWrites(k, n)[i] == if i % 2 == 0 then n else 0
  {
    if k > 0 {
      OverflowWritesAlternate(k - 1, n);
      assert OverflowWrites(k, n) == OverflowWrites(k - 1, n) + [n, 0];
    }
  }

  /** One more round appends its two write calls. */
  lemma OverflowWritesStep(before: seq<nat>, now: seq<nat>, k: nat, n: nat)
    requires now == before + OverflowWrites(k, n) + [n, 0]
    ensures now == before + OverflowWrites(k + 1, n)
  {
  }

  /** The write calls of k overflow rounds of kLog: one flush of the full buffer each. */
  function FlushWrites(k: nat, n: nat): (w: seq<nat>)
    ensures |w| == k
  {
    if k == 0 then [] else FlushWrites(k - 1, n) + [n]
  }

  /** Every call of kLog's rounds writes the full buffer. */
  lemma {:induction false} FlushWritesFull(k: nat, n: nat)
    ensures forall i :: 0 <= i < k ==> FlushWrites(k, n)[i] == n
  {
    if k > 0 {
      FlushWritesFull(k - 1, n);
      assert FlushWrites(k, n) == FlushWrites(k - 1, n) + [n];
    }
  }

  /** One more round appends its write call. */
  lemma FlushWritesStep(before: seq<nat>, now: seq<nat>, k: nat, n: nat)
    requires now == before + FlushWrites(k, n) + [n]
    ensures now == before + FlushWrites(k + 1, n)
  {
  }

  /** 513 bytes into an empty 512-byte buffer: one round, whose second write call is empty. */
  lemma DoubleFlushExample()
    ensures Rounds(513, 512) == 1
    ensures OverflowWrites(Rounds(513, 512), 512) == [512, 0]
  {
    assert Rounds(1, 512) == 0;
  }

  class SpiFlash {
    var csPin: Char8
    const bufferSize: nat
    const kBufferSize: nat
    var queuedos: seq<QueuedWrite>
    const obuff: array<bv8>
    var bufferOffset: nat
    const kbuff: array<bv8>
    var kBufferOffset: nat
    /** The files behind fd and kfd. */
    const sink: Sink
    const ksink: Sink

    ghost predicate Valid()
      reads this
    {
      && obuff.Length == bufferSize > 0
      && kbuff.Length == kBufferSize > 0
      && bufferOffset <= bufferSize
      && kBufferOffset <= kBufferSize
      && obuff != kbuff
      && sink != ksink
    }

    /** The bytes buffered in obuff and not yet written to the sink. */
    ghost function Pending(): seq<bv8>
      reads this, obuff
      requires Valid()
    {
      obuff[..bufferOffset]
    }

    /** The bytes buffered in kbuff and not yet written to the kernel-log sink. */
    ghost function KPending(): seq<bv8>
      reads this, kbuff
      requires Valid()
    {
      kbuff[..kBufferOffset]
    }

    /** Opening the two files is not modelled: the sinks behind them are passed in. */
    constructor (sink: Sink, ksink: Sink, csPin: Char8 := 3, bufferSize: nat := 512, kBufferSize: nat := 2048)
      requires sink != ksink
      requires bufferSize > 0 && kBufferSize > 0
      ensures Valid()
      ensures fresh(obuff) && fresh(kbuff)
      ensures this.bufferSize == bufferSize && this.kBufferSize == kBufferSize
      ensures this.csPin == csPin && this.sink == sink && this.ksink == ksink
      ensures bufferOffset == 0 && kBufferOffset == 0 && queuedos == []
    {
      this.csPin := csPin;
      this.bufferSize := bufferSize;
      this.kBufferSize := kBufferSize;
      bufferOffset := 0;
      kBufferOffset := 0;
      obuff := new bv8[bufferSize];
      kbuff := new bv8[kBufferSize];
      queuedos := [];
      this.sink := sink;
      this.ksink := ksink;
    }

    /** queue: push (priority, bytes, data) and report 0. */
    method Queue(bytes: nat, data: array?<bv8>, priority: Char8 := PUnimportant as Char8) returns (r: Char8)
      modifies this`queuedos
      ensures r == 0
      ensures queuedos == old(queuedos) + [QueuedWrite(priority as int, bytes, data)]
    {
      queuedos := queuedos + [QueuedWrite(priority as int, bytes, data)];
      r := 0;
    }

    /** write: hand `bytes` bytes of `data` to the normal sink. */
    method Write(bytes: nat, data: array<bv8>) returns (r: int)
      requires bytes <= data.Length
      modifies sink
      ensures sink.faults == Rest(old(sink.faults)) && sink.writes == old(sink.writes) + [bytes]
      ensures FailsNext(old(sink.faults)) ==> r == -1 && sink.stream == old(sink.stream)
      ensures !FailsNext(old(sink.faults)) ==> r == bytes && sink.stream == old(sink.stream) + data[..bytes]
    {
      r := sink.Write(data, bytes);
    }

    /** kwrite: hand `bytes` bytes of `data` to the kernel-log sink. */
    method KWrite(bytes: nat, data: array<bv8>) returns (r: int)
      requires bytes <= data.Length
      modifies ksink
      ensures ksink.faults == Rest(old(ksink.faults)) && ksink.writes == old(ksink.writes) + [bytes]
      ensures FailsNext(old(ksink.faults)) ==> r == -1 && ksink.stream == old(ksink.stream)
      ensures !FailsNext(old(ksink.faults)) ==> r == bytes && ksink.stream == old(ksink.stream) + data[..bytes]
    {
      r := ksink.Write(data, bytes);
    }

    /** flush: write obuff[0..bufferOffset) out; on success zero obuff and the offset and
        return 0, on failure return the error and leave the buffer as it was. */
    method Flush() returns (r: Char8)
      requires Valid()
      modifies this`bufferOffset, obuff, sink
      ensures Valid()
      ensures sink.faults == Rest(old(sink.faults)) && sink.writes == old(sink.writes) + [old(bufferOffset)]
      ensures FailsNext(old(sink.faults)) ==>
        r == -1 && bufferOffset == old(bufferOffset) && obuff[..] == old(obuff[..]) && sink.stream == old(sink.stream)
      ensures !FailsNext(old(sink.faults)) ==>
        && r == 0 && bufferOffset == 0
        && (forall i :: 0 <= i < obuff.Length ==> obuff[i] == 0)
        && sink.stream == old(sink.stream) + old(Pending())
    {
      var err := Write(bufferOffset, obuff);
      if err < 0 {
        return ToChar(err);
      }
      MemZero(obuff);
      bufferOffset := 0;
      r := 0;
    }

    /** kflush: like flush for kbuff, but on success it returns the written byte count
        truncated to `char` rather than 0. */
    method KFlush() returns (r: Char8)
      requires Valid()
      modifies this`kBufferOffset, kbuff, ksink
      ensures Valid()
      ensures ksink.faults == Rest(old(ksink.faults)) && ksink.writes == old(ksink.writes) + [old(kBufferOffset)]
      ensures FailsNext(old(ksink.faults)) ==>
        r == -1 && kBufferOffset == old(kBufferOffset) && kbuff[..] == old(kbuff[..]) && ksink.stream == old(ksink.stream)
      ensures !FailsNext(old(ksink.faults)) ==>
        && r == KFlushSuccessResult(old(kBufferOffset)) && kBufferOffset == 0
        && (forall i :: 0 <= i < kbuff.Length ==> kbuff[i] == 0)
        && ksink.stream == old(ksink.stream) + old(KPending())
    {
      var err := KWrite(kBufferOffset, kbuff);
      if err < 0 {
        return ToChar(err);
      }
      MemZero(kbuff);
      kBufferOffset := 0;
      r := ToChar(err);
    }

    /** memcpy(obuff + bufferOffset, data + from, n); bufferOffset += n. */
    method AppendPending(data: array<bv8>, from: nat, n: nat)
      requires Valid()
      requires data != obuff && from + n <= data.Length && bufferOffset + n <= bufferSize
      modifies this`bufferOffset, obuff
      ensures Valid()
      ensures bufferOffset == old(bufferOffset) + n
      ensures Pending() == old(Pending()) + data[from..from + n]
    {
      MemCopy(obuff, bufferOffset, data, from, n);
      bufferOffset := bufferOffset + n;
    }

    /** memcpy(kbuff + kBufferOffset, data + from, n); kBufferOffset += n. */
    method AppendKPending(data: array<bv8>, from: nat, n: nat)
      requires Valid()
      requires data != kbuff && from + n <= data.Length && kBufferOffset + n <= kBufferSize
      modifies this`kBufferOffset, kbuff
      ensures Valid()
      ensures kBufferOffset == old(kBufferOffset) + n
      ensures KPending() == old(KPending()) + data[from..from + n]
    {
      MemCopy(kbuff, kBufferOffset, data, from, n);
      kBufferOffset := kBufferOffset + n;
    }

    /** One round of buffer's overflow loop, for a full obuff: `err = flush() < 0`, a return
        of err when it is 1, the second flush, and the copy of the next slice into obuff.
        `start`, `d` and `base` are the stream-plus-buffer, the data and the offset at entry
        to buffer; the round keeps "stream + buffer = start + data so far" and the fill level.
        A completed round makes two write calls: the full buffer, then the 0 bytes left, whose
        failure nobody sees. */
    method OverflowRound(data: array<bv8>, offset: nat, bytes: nat,
                         ghost start: seq<bv8>, ghost d: seq<bv8>, ghost base: nat)
      returns (err: int, temp: nat)
      requires Valid()
      requires data != obuff && offset < bytes <= data.Length && bufferOffset == bufferSize
      requires data[..bytes] == d && sink.stream + Pending() == start + d[..offset]
      requires Filled(base + offset, bufferSize, bufferOffset)
      modifies this`bufferOffset, obuff, sink
      ensures Valid()
      ensures err == 0 || err == 1
      ensures err == 1 ==> FailsNext(old(sink.faults)) && bufferOffset == bufferSize
                           && sink.stream + Pending() == start + d[..offset]
                           && sink.writes == old(sink.writes) + [bufferSize]
      ensures err == 0 ==>
        && temp == Min(bytes - offset, bufferSize)
        && sink.stream + Pending() == start + d[..offset + temp]
        && Filled(base + offset + temp, bufferSize, bufferOffset)
        && Rounds(base + offset + temp, bufferSize) == Rounds(base + offset, bufferSize) + 1
        && sink.writes == old(sink.writes) + [bufferSize, 0]
        && sink.faults == Rest(Rest(old(sink.faults)))
      ensures Healthy(old(sink.faults)) ==> err == 0 && Healthy(sink.faults)
    {
      ghost var before := sink.faults;
      ghost var placed := sink.stream + Pending();
      if Healthy(before) { HealthyRest(before); }
      var flushed := Flush();
      err := OverflowFlushTest(flushed);
      if err != 0 {
        return err, 0;
      }
      ghost var mid := sink.faults;
      if Healthy(before) { HealthyRest(mid); }
      var _ := Flush();
      temp := Min(bytes - offset, bufferSize);
      assert Pending() == [];
      AppendPending(data, offset, temp);
      SliceOfPrefix(data[..], d, offset, offset + temp);
      StreamStep(placed, sink.stream, Pending(), start, d, offset, temp);
      FillLevelStep(base + offset, bufferSize, temp);
      RoundsStep(base + offset, bufferSize, temp);
    }

    /** The overflow round buffer evidently means: one flush of the full buffer, so a round
        makes one write call; otherwise as OverflowRound. */
    method OverflowRoundIntended(data: array<bv8>, offset: nat, bytes: nat,
                                 ghost start: seq<bv8>, ghost d: seq<bv8>, ghost base: nat)
      returns (err: int, temp: nat)
      requires Valid()
      requires data != obuff && offset < bytes <= data.Length && bufferOffset == bufferSize
      requires data[..bytes] == d && sink.stream + Pending() == start + d[..offset]
      requires Filled(base + offset, bufferSize, bufferOffset)
      modifies this`bufferOffset, obuff, sink
      ensures Valid()
      ensures sink.writes == old(sink.writes) + [bufferSize] && sink.faults == Rest(old(sink.faults))
      ensures err == 0 || err == 1
      ensures err == 1 <==> FailsNext(old(sink.faults))
      ensures err == 1 ==> bufferOffset == bufferSize && sink.stream + Pending() == start + d[..offset]
      ensures err == 0 ==>
        && temp == Min(bytes - offset, bufferSize)
        && sink.stream + Pending() == start + d[..offset + temp]
        && Filled(base + offset + temp, bufferSize, bufferOffset)
    {
      ghost var placed := sink.stream + Pending();
      var flushed := Flush();
      err := OverflowFlushTest(flushed);
      if err != 0 {
        return err, 0;
      }
      temp := Min(bytes - offset, bufferSize);
      assert Pending() == [];
      AppendPending(data, offset, temp);
      SliceOfPrefix(data[..], d, offset, offset + temp);
      StreamStep(placed, sink.stream, Pending(), start, d, offset, temp);
      FillLevelStep(base + offset, bufferSize, temp);
    }

    /** buffer: append data[0..bytes) to obuff, flushing whenever it is full.
        Argument checks come first: 0 bytes gives 0, a null pointer gives -1 (obuff is
        never null here, so the -2 result cannot occur). On success the sink stream followed
        by the buffered bytes has grown by exactly the data and obuff holds the last,
        possibly partial, capacity's worth; a failing flush stops the append with obuff full
        and the rest of the data dropped, and returns 1. */
    method Buffer(bytes: nat, data: array?<bv8>) returns (r: Char8)
      requires Valid()
      requires data != null ==> bytes <= data.Length && data != obuff
      modifies this`bufferOffset, obuff, sink
      ensures Valid()
      ensures bytes == 0 ==> r == 0 && unchanged(this, obuff, sink)
      ensures bytes > 0 && data == null ==> r == -1 && unchanged(this, obuff, sink)
      ensures bytes > 0 && data != null ==> r == 0 || r == 1
      ensures bytes > 0 && data != null && r == 0 ==>
        && sink.stream + Pending() == old(sink.stream + Pending()) + data[..bytes]
        && bufferOffset == FillLevel(old(bufferOffset) + bytes, bufferSize)
        && sink.writes == old(sink.writes) + OverflowWrites(Rounds(old(bufferOffset) + bytes, bufferSize), bufferSize)
      ensures bytes > 0 && data != null && r == 1 ==>
        && bufferOffset == bufferSize
        && exists k :: 0 <= k < bytes && sink.stream + Pending() == old(sink.stream + Pending()) + data[..k]
             && sink.writes == old(sink.writes) + OverflowWrites(Rounds(old(bufferOffset) + k, bufferSize), bufferSize) + [bufferSize]
      ensures Healthy(old(sink.faults)) ==> r != 1
    {
      if bytes == 0 {
        return 0;
      }
      if data == null {
        return -1;
      }
      ghost var kept;
      r, kept := AppendAll(bytes, data);
    }

    /** The body of buffer after its argument checks. */
    method AppendAll(bytes: nat, data: array<bv8>) returns (r: Char8, ghost kept: nat)
      requires Valid()
      requires 0 < bytes <= data.Length && data != obuff
      modifies this`bufferOffset, obuff, sink
      ensures Valid()
      ensures r == 0 || r == 1
      ensures r == 0 ==>
        && sink.stream + Pending() == old(sink.stream + Pending()) + data[..bytes]
        && bufferOffset == FillLevel(old(bufferOffset) + bytes, bufferSize)
        && sink.writes == old(sink.writes) + OverflowWrites(Rounds(old(bufferOffset) + bytes, bufferSize), bufferSize)
      ensures r == 1 ==>
        && bufferOffset == bufferSize
        && kept < bytes && sink.stream + Pending() == old(sink.stream + Pending()) + data[..kept]
        && sink.writes == old(sink.writes) + OverflowWrites(Rounds(old(bufferOffset) + kept, bufferSize), bufferSize) + [bufferSize]
      ensures Healthy(old(sink.faults)) ==> r != 1
    {
      ghost var d := data[..bytes];
      ghost var start := sink.stream + Pending();
      var temp: nat := Min(bytes, bufferSize - bufferOffset);
      AppendPending(data, 0, temp);
      r, kept := OverflowLoop(data, temp, bytes, start, d, old(bufferOffset), old(sink.writes), Healthy(old(sink.faults)));
    }

    /** buffer's overflow loop, from `offset` bytes placed on: a round per full buffer until
        the data is placed or a flush fails. The ghost parameters are as for OverflowRound,
        with the write calls and the health of the sink at entry to buffer. */
    method OverflowLoop(data: array<bv8>, offset: nat, bytes: nat, ghost start: seq<bv8>, ghost d: seq<bv8>,
                        ghost base: nat, ghost written: seq<nat>, ghost healthy: bool)
      returns (r: Char8, ghost kept: nat)
      requires Valid()
      requires data != obuff && offset <= bytes <= data.Length && data[..bytes] == d
      requires sink.stream + Pending() == start + d[..offset]
      requires Filled(base + offset, bufferSize, bufferOffset)
      requires offset < bytes ==> bufferOffset == bufferSize
      requires healthy ==> Healthy(sink.faults)
      requires sink.writes == written + OverflowWrites(Rounds(base + offset, bufferSize), bufferSize)
      modifies this`bufferOffset, obuff, sink
      ensures Valid()
      ensures r == 0 || r == 1
      ensures r == 0 ==>
        && sink.stream + Pending() == start + d
        && bufferOffset == FillLevel(base + bytes, bufferSize)
        && sink.writes == written + OverflowWrites(Rounds(base + bytes, bufferSize), bufferSize)
      ensures r == 1 ==>
        && bufferOffset == bufferSize
        && kept < bytes && sink.stream + Pending() == start + d[..kept]
        && sink.writes == written + OverflowWrites(Rounds(base + kept, bufferSize), bufferSize) + [bufferSize]
      ensures healthy ==> r != 1
    {
      var err: int := 0;
      var placed: nat := offset;
      var temp: nat := 0;
      ghost var rounds := Rounds(base + offset, bufferSize);
      while bytes - placed > 0
        invariant Valid()
        invariant offset <= placed <= bytes
        invariant sink.stream + Pending() == start + d[..placed]
        invariant Filled(base + placed, bufferSize, bufferOffset)
        invariant placed < bytes ==> bufferOffset == bufferSize
        invariant healthy ==> Healthy(sink.faults)
        invariant rounds == Rounds(base + placed, bufferSize)
        invariant sink.writes == written + OverflowWrites(rounds, bufferSize)
        decreases bytes - placed
      {
        err, temp := OverflowRound(data, placed, bytes, start, d, base);
        if err != 0 {
          return ToChar(err), placed;
        }
        OverflowWritesStep(written, sink.writes, rounds, bufferSize);
        placed, rounds := placed + temp, rounds + 1;
      }
      assert d[..placed] == d;
      r, kept := 0, bytes;
    }

    /** One round of kLog's overflow loop, for a full kbuff: `err = kflush() < 0`, a return
        of err when it is 1, and the copy of the next slice into kbuff. The ghost parameters
        are as for OverflowRound. */
    method KOverflowRound(data: array<bv8>, offset: nat, bytes: nat,
                          ghost start: seq<bv8>, ghost d: seq<bv8>, ghost base: nat)
      returns (err: int, temp: nat)
      requires Valid()
      requires data != kbuff && offset < bytes <= data.Length && kBufferOffset == kBufferSize
      requires data[..bytes] == d && ksink.stream + KPending() == start + d[..offset]
      requires Filled(base + offset, kBufferSize, kBufferOffset)
      modifies this`kBufferOffset, kbuff, ksink
      ensures Valid()
      ensures err == 0 || err == 1
      ensures err == 1 <==> FailsNext(old(ksink.faults)) || KFlushSuccessResult(kBufferSize) < 0
      ensures ksink.writes == old(ksink.writes) + [kBufferSize]
      ensures err == 1 ==> ksink.stream + KPending() == start + d[..offset]
      ensures err == 0 ==>
        && temp == Min(bytes - offset, kBufferSize)
        && ksink.stream + KPending() == start + d[..offset + temp]
        && Filled(base + offset + temp, kBufferSize, kBufferOffset)
        && Rounds(base + offset + temp, kBufferSize) == Rounds(base + offset, kBufferSize) + 1
      ensures Healthy(old(ksink.faults)) ==> Healthy(ksink.faults)
    {
      ghost var before := ksink.faults;
      ghost var placed := ksink.stream + KPending();
      if Healthy(before) { HealthyRest(before); }
      var flushed := KFlush();
      err := OverflowFlushTest(flushed);
      if err != 0 {
        return err, 0;
      }
      temp := Min(bytes - offset, kBufferSize - kBufferOffset);
      assert KPending() == [];
      AppendKPending(data, offset, temp);
      SliceOfPrefix(data[..], d, offset, offset + temp);
      StreamStep(placed, ksink.stream, KPending(), start, d, offset, temp);
      FillLevelStep(base + offset, kBufferSize, temp);
      RoundsStep(base + offset, kBufferSize, temp);
    }

    /** kLog: buffer for kbuff and the kernel-log sink. Because kflush returns the truncated
        byte count, an overflow on a buffer whose capacity mod 256 is at least 128 reads as a
        failure even when the sink accepted everything. */
    method KLog(bytes: nat, data: array?<bv8>) returns (r: int)
      requires Valid()
      requires data != null ==> bytes <= data.Length && data != kbuff
      modifies this`kBufferOffset, kbuff, ksink
      ensures Valid()
      ensures bytes == 0 ==> r == 0 && unchanged(this, kbuff, ksink)
      ensures bytes > 0 && data == null ==> r == -1 && unchanged(this, kbuff, ksink)
      ensures bytes > 0 && data != null ==> r == 0 || r == 1
      ensures bytes > 0 && data != null && r == 0 ==>
        && ksink.stream + KPending() == old(ksink.stream + KPending()) + data[..bytes]
        && kBufferOffset == FillLevel(old(kBufferOffset) + bytes, kBufferSize)
        && ksink.writes == old(ksink.writes) + FlushWrites(Rounds(old(kBufferOffset) + bytes, kBufferSize), kBufferSize)
      ensures bytes > 0 && data != null && r == 1 ==>
        exists k :: 0 <= k < bytes && ksink.stream + KPending() == old(ksink.stream + KPending()) + data[..k]
          && ksink.writes == old(ksink.writes) + FlushWrites(Rounds(old(kBufferOffset) + k, kBufferSize), kBufferSize) + [kBufferSize]
      ensures Healthy(old(ksink.faults)) && KFlushSuccessResult(kBufferSize) >= 0 ==> r != 1
      ensures bytes > 0 && data != null && old(kBufferOffset) + bytes > kBufferSize && KFlushSuccessResult(kBufferSize) < 0 ==> r == 1
    {
      if bytes == 0 {
        return 0;
      }
      if data == null {
        return -1;
      }
      ghost var kept;
      r, kept := KAppendAll(bytes, data);
    }

    /** The body of kLog after its argument checks. */
    method KAppendAll(bytes: nat, data: array<bv8>) returns (r: int, ghost kept: nat)
      requires Valid()
      requires 0 < bytes <= data.Length && data != kbuff
      modifies this`kBufferOffset, kbuff, ksink
      ensures Valid()
      ensures r == 0 || r == 1
      ensures r == 0 ==>
        && ksink.stream + KPending() == old(ksink.stream + KPending()) + data[..bytes]
        && kBufferOffset == FillLevel(old(kBufferOffset) + bytes, kBufferSize)
        && ksink.writes == old(ksink.writes) + FlushWrites(Rounds(old(kBufferOffset) + bytes, kBufferSize), kBufferSize)
      ensures r == 1 ==>
        && kept < bytes && ksink.stream + KPending() == old(ksink.stream + KPending()) + data[..kept]
        && ksink.writes == old(ksink.writes) + FlushWrites(Rounds(old(kBufferOffset) + kept, kBufferSize), kBufferSize) + [kBufferSize]
      ensures Healthy(old(ksink.faults)) && KFlushSuccessResult(kBufferSize) >= 0 ==> r != 1
      ensures old(kBufferOffset) + bytes > kBufferSize && KFlushSuccessResult(kBufferSize) < 0 ==> r == 1
    {
      ghost var d := data[..bytes];
      ghost var start := ksink.stream + KPending();
      var temp: nat := Min(bytes, kBufferSize - kBufferOffset);
      AppendKPending(data, 0, temp);
      r, kept := KOverflowLoop(data, temp, bytes, start, d, old(kBufferOffset), old(ksink.writes), Healthy(old(ksink.faults)));
    }

    /** kLog's overflow loop, from the first copy on: a round per full buffer until the data
        is placed or a round reports 1. The ghost parameters are as for OverflowLoop. */
    method KOverflowLoop(data: array<bv8>, offset: nat, bytes: nat, ghost start: seq<bv8>, ghost d: seq<bv8>,
                         ghost base: nat, ghost written: seq<nat>, ghost healthy: bool)
      returns (r: int, ghost kept: nat)
      requires Valid()
      requires data != kbuff && bytes <= data.Length && data[..bytes] == d
      requires base <= kBufferSize && offset == Min(bytes, kBufferSize - base)
      requires ksink.stream + KPending() == start + d[..offset]
      requires Filled(base + offset, kBufferSize, kBufferOffset)
      requires offset < bytes ==> kBufferOffset == kBufferSize
      requires healthy ==> Healthy(ksink.faults)
      requires ksink.writes == written + FlushWrites(Rounds(base + offset, kBufferSize), kBufferSize)
      modifies this`kBufferOffset, kbuff, ksink
      ensures Valid()
      ensures r == 0 || r == 1
      ensures r == 0 ==>
        && ksink.stream + KPending() == start + d
        && kBufferOffset == FillLevel(base + bytes, kBufferSize)
        && ksink.writes == written + FlushWrites(Rounds(base + bytes, kBufferSize), kBufferSize)
      ensures r == 1 ==>
        && kept < bytes && ksink.stream + KPending() == start + d[..kept]
        && ksink.writes == written + FlushWrites(Rounds(base + kept, kBufferSize), kBufferSize) + [kBufferSize]
      ensures healthy && KFlushSuccessResult(kBufferSize) >= 0 ==> r != 1
      ensures base + bytes > kBufferSize && KFlushSuccessResult(kBufferSize) < 0 ==> r == 1
    {
      var err: int := 0;
      var placed: nat := offset;
      var temp: nat := 0;
      ghost var rounds := Rounds(base + offset, kBufferSize);
      while bytes - placed > 0
        invariant Valid()
        invariant offset <= placed <= bytes
        invariant ksink.stream + KPending() == start + d[..placed]
        invariant Filled(base + placed, kBufferSize, kBufferOffset)
        invariant placed < bytes ==> kBufferOffset == kBufferSize
        invariant healthy ==> Healthy(ksink.faults)
        invariant KFlushSuccessResult(kBufferSize) < 0 ==> placed == offset
        invariant rounds == Rounds(base + placed, kBufferSize)
        invariant ksink.writes == written + FlushWrites(rounds, kBufferSize)
        decreases bytes - placed
      {
        err, temp := KOverflowRound(data, placed, bytes, start, d, base);
        if err != 0 {
          return err, placed;
        }
        FlushWritesStep(written, ksink.writes, rounds, kBufferSize);
        placed, rounds := placed + temp, rounds + 1;
      }
      assert d[..placed] == d;
      r, kept := 0, bytes;
    }
  }
}
