/** The fixed 17-byte sensor frame of dataPacket.h / dataPacket.cpp:
    header 0xAA, sensor id, at most 14 payload bytes (zero padded),
    and an XOR checksum over the first 16 bytes in the last slot. */
module DataPacket {

  /** Start byte for UART synchronisation (PACKET_HEADER). */
  const PacketHeader: bv8 := 0xAA
  /** PACKET_SIZE: documented as the payload size, used as the whole frame length. */
  const PacketSize: nat := 17
  /** The payload copy loop runs while i + 2 < PACKET_SIZE - 1, i.e. for at most 14 bytes. */
  const MaxPayload: nat := PacketSize - 3

  function Min(a: nat, b: nat): nat { if a < b then a else b }

  /** XOR fold of a byte sequence, accumulated left to right from 0. */
  function Xor(s: seq<bv8>): bv8
  {
    if s == [] then 0 else Xor(s[..|s| - 1]) ^ s[|s| - 1]
  }

  lemma {:induction false} XorAppend(s: seq<bv8>, t: seq<bv8>)
    ensures Xor(s + t) == Xor(s) ^ Xor(t)
    decreases |t|
  {
    if t == [] {
      assert s + t == s;
    } else {
      var t' := t[..|t| - 1];
      assert (s + t)[..|s + t| - 1] == s + t';
      XorAppend(s, t');
    }
  }

  /** Appending the checksum of a range to that range gives a range whose checksum is 0. */
  lemma XorSelfCancels(s: seq<bv8>)
    ensures Xor(s + [Xor(s)]) == 0
  {
    assert (s + [Xor(s)])[..|s|] == s;
  }

  /** calculateChecksum: XOR of buffer[0..length). */
  method CalculateChecksum(buffer: array<bv8>, length: nat) returns (sum: bv8)
    requires length <= buffer.Length
    ensures sum == Xor(buffer[..length])
    ensures length == 0 ==> sum == 0
  {
    sum := 0;
    var i := 0;
    while i < length
      invariant i <= length
      invariant sum == Xor(buffer[..i])
    {
      assert buffer[..i + 1][..i] == buffer[..i];
      sum := sum ^ buffer[i];
      i := i + 1;
    }
  }

  /** The 16 bytes before the checksum: header, id, the copied payload, zero padding. */
  function Body(sensorId: bv8, data: seq<bv8>): (b: seq<bv8>)
  {
    var n := Min(|data|, MaxPayload);
    [PacketHeader, sensorId] + data[..n] + seq(MaxPayload - n, _ => 0 as bv8)
  }

  /** The frame buildPacket writes, for the raw sensor bytes `data`. */
  function Frame(sensorId: bv8, data: seq<bv8>): (f: seq<bv8>)
  {
    Body(sensorId, data) + [Xor(Body(sensorId, data))]
  }

  /** Every byte of the frame, as buildPacket's contract promises it. */
  lemma FrameLayout(sensorId: bv8, data: seq<bv8>)
    ensures |Frame(sensorId, data)| == PacketSize
    ensures Frame(sensorId, data)[0] == PacketHeader
    ensures Frame(sensorId, data)[1] == sensorId
    ensures forall i :: 0 <= i < Min(|data|, MaxPayload) ==> Frame(sensorId, data)[i + 2] == data[i]
    ensures forall i :: Min(|data|, MaxPayload) + 2 <= i < PacketSize - 1 ==> Frame(sensorId, data)[i] == 0
    ensures Frame(sensorId, data)[PacketSize - 1] == Xor(Frame(sensorId, data)[..PacketSize - 1])
  {
    assert Frame(sensorId, data)[..PacketSize - 1] == Body(sensorId, data);
  }

  /** The XOR of all 17 bytes of a frame is 0. */
  lemma FrameChecksumIsZero(sensorId: bv8, data: seq<bv8>)
    ensures Xor(Frame(sensorId, data)) == 0
  {
    XorSelfCancels(Body(sensorId, data));
  }

  /** Data past the 14th byte is dropped: the frame depends only on the first 14 bytes. */
  lemma FrameDropsExcess(sensorId: bv8, data: seq<bv8>)
    ensures Frame(sensorId, data) == Frame(sensorId, data[..Min(|data|, MaxPayload)])
  {
    var n := Min(|data|, MaxPayload);
    assert data[..n][..n] == data[..n];
  }

  /** The frame gives back the sensor id and the copied payload: two payloads of the same
      length (at most 14) that give the same frame are equal. */
  lemma FrameInjective(id1: bv8, d1: seq<bv8>, id2: bv8, d2: seq<bv8>)
    requires |d1| == |d2| <= MaxPayload
    requires Frame(id1, d1) == Frame(id2, d2)
    ensures id1 == id2 && d1 == d2
  {
    FrameLayout(id1, d1);
    FrameLayout(id2, d2);
    forall i | 0 <= i < |d1| ensures d1[i] == d2[i] {
      assert Frame(id1, d1)[i + 2] == Frame(id2, d2)[i + 2];
    }
  }

  /** buildPacket: overwrites buffer[0..17) with the frame and touches nothing past it. */
  method BuildPacket(sensorId: bv8, data: array<bv8>, dataLength: nat, buffer: array<bv8>)
    requires buffer.Length >= PacketSize
    requires Min(dataLength, MaxPayload) <= data.Length
    requires data != buffer
    modifies buffer
    ensures buffer[..PacketSize] == Frame(sensorId, old(data[..Min(dataLength, MaxPayload)]))
    ensures buffer[PacketSize..] == old(buffer[PacketSize..])
  {
    ghost var payload := data[..Min(dataLength, MaxPayload)];
    // memset(buffer, 0, PACKET_SIZE)
    var k := 0;
    while k < PacketSize
      invariant k <= PacketSize
      invariant forall j :: 0 <= j < k ==> buffer[j] == 0
      invariant buffer[PacketSize..] == old(buffer[PacketSize..])
    {
      buffer[k] := 0;
      k := k + 1;
    }
    buffer[0] := PacketHeader;
    buffer[1] := sensorId;
    var i := 0;
    while i < dataLength && i + 2 < PacketSize - 1
      invariant i <= Min(dataLength, MaxPayload)
      invariant buffer[0] == PacketHeader && buffer[1] == sensorId
      invariant forall j :: 0 <= j < i ==> buffer[j + 2] == payload[j]
      invariant forall j :: i + 2 <= j < PacketSize ==> buffer[j] == 0
      invariant buffer[PacketSize..] == old(buffer[PacketSize..])
    {
      buffer[i + 2] := data[i];
      i := i + 1;
    }
    assert buffer[..PacketSize - 1] == Body(sensorId, payload);
    var sum := CalculateChecksum(buffer, PacketSize - 1);
    buffer[PacketSize - 1] := sum;
    assert buffer[..PacketSize] == buffer[..PacketSize - 1] + [sum];
  }
}
