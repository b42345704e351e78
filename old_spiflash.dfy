/** The earlier storage engine of spi_flash/old_spiflash.cpp: namespace-global state (one
    4098-byte buffer, its offset and the deferred-write queue) and a `write` that sends the
    bytes to standard output and always reports 0. The globals become the fields of one
    object; standard output is a ghost byte stream. */
module OldSpiFlashStore {
  import opened ByteSink
  import opened IoQueue

  /** buffer_size, and the dimension of obuff. */
  const OldBufferSize: nat := 4098

  class OldSpiFlash {
    var bufferOffset: nat
    const obuff: array<bv8>
    var queuedos: seq<QueuedWrite>
    /** Everything written to standard output so far. */
    ghost var stdout: seq<bv8>

    ghost predicate Valid()
      reads this
    {
      obuff.Length == OldBufferSize && bufferOffset <= OldBufferSize
    }

    /** The bytes buffered in obuff and not yet written out. */
    ghost function Pending(): seq<bv8>
      reads this, obuff
      requires Valid()
    {
      obuff[..bufferOffset]
    }

    /** The static initial state: zeroed buffer, offset 0, empty queue. */
    constructor ()
      ensures Valid()
      ensures bufferOffset == 0 && queuedos == [] && stdout == []
      ensures forall i :: 0 <= i < obuff.Length ==> obuff[i] == 0
    {
      bufferOffset := 0;
      obuff := new bv8[OldBufferSize](_ => 0);
      queuedos := [];
      stdout := [];
    }

    /** queue: push (priority, bytes, data), the priority being P_STD unless one is given;
        nothing else changes. */
    method Queue(bytes: nat, data: array?<bv8>, priority: Uint8 := PStd as Uint8)
      modifies this`queuedos
      ensures queuedos == old(queuedos) + [QueuedWrite(priority as int, bytes, data)]
    {
      queuedos := queuedos + [QueuedWrite(priority as int, bytes, data)];
    }

    /** write: the bytes go to standard output and the result is always 0. */
    method Write(bytes: nat, data: array<bv8>) returns (r: int)
      requires bytes <= data.Length
      modifies this`stdout
      ensures r == 0
      ensures stdout == old(stdout) + data[..bytes]
    {
      stdout := stdout + data[..bytes];
      r := 0;
    }

    /** flush: write the buffered bytes, zero the whole buffer, reset the offset. It has
        no error path. */
    method Flush()
      requires Valid()
      modifies this`stdout, this`bufferOffset, obuff
      ensures Valid()
      ensures stdout == old(stdout) + old(Pending())
      ensures bufferOffset == 0
      ensures forall i :: 0 <= i < obuff.Length ==> obuff[i] == 0
    {
      var _ := Write(bufferOffset, obuff);
      MemZero(obuff);
      bufferOffset := 0;
    }

    /** memcpy(obuff + bufferOffset, data + from, n); bufferOffset += n. */
    method AppendPending(data: array<bv8>, from: nat, n: nat)
      requires Valid()
      requires data != obuff && from + n <= data.Length && bufferOffset + n <= OldBufferSize
      modifies this`bufferOffset, obuff
      ensures Valid()
      ensures bufferOffset == old(bufferOffset) + n
      ensures Pending() == old(Pending()) + data[from..from + n]
    {
      MemCopy(obuff, bufferOffset, data, from, n);
      bufferOffset := bufferOffset + n;
    }

    /** buffer: append data[0..bytes), flushing whenever obuff is full, and return bytes.
        Standard output followed by the buffered bytes grows by exactly the data, and the
        buffer is left holding the last, possibly partial, 4098 bytes' worth. */
    method Buffer(bytes: nat, data: array<bv8>) returns (r: int)
      requires Valid()
      requires bytes <= data.Length && data != obuff
      modifies this`stdout, this`bufferOffset, obuff
      ensures Valid()
      ensures r == bytes
      ensures stdout + Pending() == old(stdout + Pending()) + data[..bytes]
      ensures old(bufferOffset) + bytes > 0 ==>
        Filled(old(bufferOffset) + bytes, OldBufferSize, bufferOffset)
      ensures old(bufferOffset) + bytes == 0 ==> bufferOffset == 0
    {
      ghost var d := data[..bytes];
      ghost var start := stdout + Pending();
      ghost var base := bufferOffset;
      var offset: nat := 0;
      var temp: nat := Min(bytes, OldBufferSize - bufferOffset);
      AppendPending(data, 0, temp);
      offset := offset + temp;
      while bytes - offset > 0
        invariant Valid()
        invariant offset <= bytes
        invariant data[..bytes] == d
        invariant stdout + Pending() == start + d[..offset]
        invariant base + offset > 0 ==> Filled(base + offset, OldBufferSize, bufferOffset)
        invariant base + offset == 0 ==> bufferOffset == 0
        invariant offset < bytes ==> bufferOffset == OldBufferSize
        decreases bytes - offset
      {
        ghost var placed := stdout + Pending();
        Flush();
        temp := Min(bytes - offset, OldBufferSize - bufferOffset);
        assert Pending() == [];
        AppendPending(data, offset, temp);
        SliceOfPrefix(data[..], d, offset, offset + temp);
        StreamStep(placed, stdout, Pending(), start, d, offset, temp);
        FillLevelStep(base + offset, OldBufferSize, temp);
        offset := offset + temp;
      }
      assert d[..offset] == d;
      r := offset;
    }
  }

  /** 264 bytes into an empty buffer stay buffered; 4100 bytes leave 2 buffered after one
      full flush. */
  lemma OldBufferFillExamples()
    ensures FillLevel(264, OldBufferSize) == 264
    ensures FillLevel(4100, OldBufferSize) == 2
    ensures FillLevel(2 * OldBufferSize, OldBufferSize) == OldBufferSize
  {
  }
}
