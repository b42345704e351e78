/** Machine-level pieces shared by the storage engines: the C `char` type and its
    truncating conversion, memcpy/memset on byte arrays, and a byte sink (a file
    descriptor or stdout) whose failures come from a scripted oracle. */
module ByteSink {

  /** A signed 8-bit C `char`. */
  newtype Char8 = x: int | -128 <= x < 128

  /** An unsigned 8-bit value (uint8_t). */
  newtype Uint8 = x: int | 0 <= x < 256

  /** Conversion of a wider integer to `char`: keep the low 8 bits, two's complement. */
  function ToChar(x: int): (c: Char8)
    ensures (c as int - x) % 256 == 0
    ensures -128 <= x < 128 ==> c as int == x
  {
    ((x + 128) % 256 - 128) as Char8
  }

  function Min(a: nat, b: nat): nat { if a < b then a else b }

  /** The oracle says the next write fails. */
  predicate FailsNext(faults: seq<bool>) { faults != [] && faults[0] }

  /** The oracle after one write has consumed its entry (an exhausted script means success). */
  function Rest(faults: seq<bool>): seq<bool> { if faults == [] then [] else faults[1..] }

  /** No write the oracle still has to answer will fail. */
  predicate Healthy(faults: seq<bool>) { forall i :: 0 <= i < |faults| ==> !faults[i] }

  lemma HealthyRest(faults: seq<bool>)
    requires Healthy(faults)
    ensures Healthy(Rest(faults)) && !FailsNext(faults)
  {
  }

  /** A byte sink: `stream` is everything it has accepted, in order; `writes` is the byte
      count of every write call, failed ones included; `faults` scripts, write by write,
      whether the next write fails. */
  class Sink {
    ghost var stream: seq<bv8>
    ghost var writes: seq<nat>
    var faults: seq<bool>

    constructor (faults: seq<bool>)
      ensures stream == [] && writes == [] && this.faults == faults
    {
      stream := [];
      writes := [];
      this.faults := faults;
    }

    /** ::write(fd, buf, n): all n bytes, or -1 and nothing. */
    method Write(buf: array<bv8>, n: nat) returns (r: int)
      requires n <= buf.Length
      modifies this
      ensures faults == Rest(old(faults)) && writes == old(writes) + [n]
      ensures FailsNext(old(faults)) ==> r == -1 && stream == old(stream)
      ensures !FailsNext(old(faults)) ==> r == n && stream == old(stream) + buf[..n]
    {
      if FailsNext(faults) {
        r := -1;
      } else {
        r := n;
        stream := stream + buf[..n];
      }
      writes := writes + [n];
      faults := Rest(faults);
    }
  }

  /** The fill level of a buffer of capacity n after `total` > 0 bytes went through it, a
      full buffer being flushed only when more bytes follow: (total - 1) mod n, plus 1. */
  function FillLevel(total: nat, n: nat): (level: nat)
    requires total > 0 && n > 0
    ensures 0 < level <= n
    ensures total <= n ==> level == total
    decreases total
  {
    if total <= n then total else FillLevel(total - n, n)
  }

  /** How many times a buffer of capacity n is flushed full while `total` bytes go through
      it, a full buffer being flushed only when more bytes follow. */
  function Rounds(total: nat, n: nat): (k: nat)
    requires n > 0
    ensures k == 0 <==> total <= n
    decreases total
  {
    if total <= n then 0 else 1 + Rounds(total - n, n)
  }

  /** `level` is the fill level after `total` bytes. */
  predicate Filled(total: nat, n: nat, level: nat)
  {
    total > 0 && n > 0 && level == FillLevel(total, n)
  }

  /** A full buffer that is flushed and then takes t more bytes (0 < t <= n) holds t. */
  lemma {:induction false} FillLevelStep(total: nat, n: nat, t: nat)
    requires total > 0 && n > 0 && 0 < t <= n
    requires FillLevel(total, n) == n
    ensures FillLevel(total + t, n) == t
    decreases total
  {
    if total > n {
      FillLevelStep(total - n, n, t);
    }
  }

  /** Filling a full buffer again costs one more flush. */
  lemma {:induction false} RoundsStep(total: nat, n: nat, t: nat)
    requires total > 0 && n > 0 && 0 < t <= n
    requires FillLevel(total, n) == n
    ensures Rounds(total + t, n) == Rounds(total, n) + 1
    decreases total
  {
    if total > n {
      RoundsStep(total - n, n, t);
    }
  }

  /** The bytes of d[lo..hi) are those of any sequence that starts with d. */
  lemma SliceOfPrefix(a: seq<bv8>, d: seq<bv8>, lo: nat, hi: nat)
    requires lo <= hi <= |d| <= |a| && a[..|d|] == d
    ensures a[lo..hi] == d[lo..hi]
  {
    forall i | lo <= i < hi
      ensures a[i] == d[i]
    {
      assert a[..|d|][i] == a[i];
    }
  }

  /** One round of an overflowing append: the flushed bytes moved from the buffer to the
      stream, and the buffer now holds the next slice of the data. */
  lemma StreamStep(placed: seq<bv8>, stream: seq<bv8>, pending: seq<bv8>, start: seq<bv8>,
                   d: seq<bv8>, offset: nat, n: nat)
    requires offset + n <= |d|
    requires placed == start + d[..offset] && stream == placed
    requires pending == d[offset..offset + n]
    ensures stream + pending == start + d[..offset + n]
  {
    assert d[..offset + n] == d[..offset] + d[offset..offset + n];
  }

  /** memcpy(dst + dstOff, src + srcOff, n) for non-overlapping arrays. */
  method MemCopy(dst: array<bv8>, dstOff: nat, src: array<bv8>, srcOff: nat, n: nat)
    requires dst != src
    requires dstOff + n <= dst.Length && srcOff + n <= src.Length
    modifies dst
    ensures dst[..] == old(dst[..dstOff]) + src[srcOff..srcOff + n] + old(dst[dstOff + n..])
    ensures dst[..dstOff + n] == old(dst[..dstOff]) + src[srcOff..srcOff + n]
  {
    forall i | 0 <= i < n {
      dst[dstOff + i] := src[srcOff + i];
    }
    assert dst[..] == old(dst[..dstOff]) + src[srcOff..srcOff + n] + old(dst[dstOff + n..]);
    assert dst[..dstOff + n] == dst[..][..dstOff + n];
  }

  /** memset(dst, 0, dst.Length). */
  method MemZero(dst: array<bv8>)
    modifies dst
    ensures forall i :: 0 <= i < dst.Length ==> dst[i] == 0
  {
    forall i | 0 <= i < dst.Length {
      dst[i] := 0;
    }
  }
}
