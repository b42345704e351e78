/** The index arithmetic of the RFD900x's circular RX and TX buffers (radio/RFD900x.cpp):
    a read index, a write index, one byte written per slot, indices wrapping to 0 at the
    buffer size. The buffer holds the bytes from the read index up to, not including, the
    write index. */
module RingBuffer {

  /** `(idx + 1) % size` for an index inside the buffer: the next slot, wrapping to 0. */
  function Advance(idx: nat, size: nat): (next: nat)
    requires idx < size
    ensures next < size
  {
    if idx + 1 == size then 0 else idx + 1
  }

  /** The slot `i` places after `start`, wrapping once. */
  function Slot(start: nat, i: nat, size: nat): (p: nat)
    requires start < size && i <= size
    ensures p < size
  {
    if start + i < size then start + i else start + i - size
  }

  /** The number of bytes held: the source's `write >= read ? write - read : size - (read - write)`,
      the distance from the read index forward to the write index. */
  function Used(write: nat, read: nat, size: nat): (n: nat)
    requires write < size && read < size
    ensures n < size
    ensures Slot(read, n, size) == write
    ensures n == 0 <==> write == read
  {
    if write >= read then write - read else size - (read - write)
  }

  /** The `count` bytes held from `start` on, oldest first. */
  function Contents(buf: seq<bv8>, start: nat, count: nat): (s: seq<bv8>)
    requires start < |buf| && count <= |buf|
    ensures |s| == count
    ensures forall i :: 0 <= i < count ==> s[i] == buf[Slot(start, i, |buf|)]
  {
    seq(count, i requires 0 <= i < count => buf[Slot(start, i, |buf|)])
  }

  /** The write index is the slot just past the bytes held. */
  lemma UsedSlot(read: nat, count: nat, size: nat)
    requires read < size && count <= size
    ensures count < size ==> Used(Slot(read, count, size), read, size) == count
    ensures count == size ==> Slot(read, count, size) == read
  {
  }

  lemma AdvanceSlot(start: nat, i: nat, size: nat)
    requires start < size && i < size
    ensures Advance(Slot(start, i, size), size) == Slot(start, i + 1, size)
  {
  }

  /** Writing one byte into the slot after the bytes held appends it, as long as it does
      not overwrite the oldest byte. */
  lemma ContentsWrite(buf: seq<bv8>, start: nat, count: nat, b: bv8)
    requires start < |buf| && count < |buf|
    ensures Contents(buf[Slot(start, count, |buf|) := b], start, count + 1) == Contents(buf, start, count) + [b]
  {
    var w := Slot(start, count, |buf|);
    var after := Contents(buf[w := b], start, count + 1);
    var before := Contents(buf, start, count) + [b];
    forall i | 0 <= i < count + 1
      ensures after[i] == before[i]
    {
      if i < count {
        assert Slot(start, i, |buf|) != w;
      }
    }
  }

  /** After the oldest k bytes are taken, the read index is k slots on and the buffer
      holds the remaining bytes, in order. */
  lemma DrainPrefix(buf: seq<bv8>, write: nat, start: nat, k: nat)
    requires write < |buf| && start < |buf| && k <= Used(write, start, |buf|)
    ensures Used(write, Slot(start, k, |buf|), |buf|) == Used(write, start, |buf|) - k
    ensures Contents(buf, Slot(start, k, |buf|), Used(write, start, |buf|) - k) ==
      Contents(buf, start, Used(write, start, |buf|))[k..]
  {
    var n := Used(write, start, |buf|);
    var rest := Contents(buf, Slot(start, k, |buf|), n - k);
    forall i | 0 <= i < n - k
      ensures rest[i] == Contents(buf, start, n)[k..][i]
    {
      assert Slot(Slot(start, k, |buf|), i, |buf|) == Slot(start, k + i, |buf|);
    }
  }

  /** Distinct counts below the size give distinct slots. */
  lemma SlotInjective(start: nat, i: nat, j: nat, size: nat)
    requires start < size && i < size && j < size
    ensures Slot(start, i, size) == Slot(start, j, size) <==> i == j
  {
  }

  /** The two bytes held at positions k and k + 1 sit in the slot of k and the one after. */
  lemma ContentsPair(buf: seq<bv8>, start: nat, count: nat, k: nat)
    requires start < |buf| && count <= |buf| && k + 1 < count
    ensures Contents(buf, start, count)[k] == buf[Slot(start, k, |buf|)]
    ensures Contents(buf, start, count)[k + 1] == buf[Advance(Slot(start, k, |buf|), |buf|)]
  {
    AdvanceSlot(start, k, |buf|);
  }

  /** The number of bytes from the read index up to and including slot `next`:
      `next >= read ? next - read + 1 : size - read + next + 1`. */
  lemma SpanToSlot(read: nat, k: nat, size: nat)
    requires read < size && k < size
    ensures var next := Slot(read, k, size);
      (if next >= read then next - read + 1 else size - read + next + 1) == k + 1
  {
  }
}
