/** The RFD900x telemetry radio driver of radio/RFD900x.cpp: a 256-byte circular receive
    buffer filled one byte at a time by the serial interrupt, a 512-byte transmit buffer
    drained to the serial port, and the AT-command handling that reconfigures the radio.
    The serial port is not modelled as a device: bytes the driver writes from the transmit
    buffer go to the ghost `wire`, and every AT exchange with the radio is recorded in the
    ghost `exchanges`. What the radio sends back to its reads is passed in. */
module RadioLink {
  import opened ByteSink
  import opened RingBuffer
  import opened AtCommands

  const RxBufferSize: nat := 256
  const TxBufferSize: nat := 512
  const MaxPacketSize: nat := 32

  /** A CR (0x0D) at k followed by an LF (0x0A). */
  predicate CrLfAt(s: seq<bv8>, k: nat)
  {
    k + 1 < |s| && s[k] == 0x0D && s[k + 1] == 0x0A
  }

  /** The length, CR LF included, of the first line ending at or after k; 0 if none. */
  function FirstPacketFrom(s: seq<bv8>, k: nat): (n: nat)
    ensures n == 0 ==> forall j: nat :: k <= j ==> !CrLfAt(s, j)
    ensures n != 0 ==> k + 2 <= n <= |s| && CrLfAt(s, n - 2)
    ensures n != 0 ==> forall j: nat :: k <= j < n - 2 ==> !CrLfAt(s, j)
    decreases |s| - k
  {
    if k + 1 >= |s| then 0
    else if CrLfAt(s, k) then k + 2
    else FirstPacketFrom(s, k + 1)
  }

  /** The length of the first complete packet, its CR LF included, or 0 when the bytes
      hold no CR LF. */
  function FirstPacketLength(s: seq<bv8>): (n: nat)
    ensures n == 0 <==> forall j: nat :: !CrLfAt(s, j)
    ensures n != 0 ==> 2 <= n <= |s| && s[n - 2] == 0x0D && s[n - 1] == 0x0A
    ensures n != 0 ==> forall j: nat :: j < n - 2 ==> !CrLfAt(s, j)
  {
    FirstPacketFrom(s, 0)
  }

  /** `(idx + 1) % RX_BUFFER_SIZE` and `(idx + 1) % TX_BUFFER_SIZE` are the next slot. */
  lemma NextRxIndex(idx: nat)
    requires idx < RxBufferSize
    ensures (idx + 1) % RxBufferSize == Advance(idx, RxBufferSize)
  {
    assert RxBufferSize == 256;
  }

  lemma NextTxIndex(idx: nat)
    requires idx < TxBufferSize
    ensures (idx + 1) % TxBufferSize == Advance(idx, TxBufferSize)
  {
    assert TxBufferSize == 512;
  }

  /** One step of the scan in getFirstPacketLength: the pair of slots it reads holds a
      CR LF exactly when the waiting bytes hold one at position k, and the length the
      source computes from the second slot is then k + 2. */
  lemma ScanStep(buf: seq<bv8>, read: nat, count: nat, k: nat)
    requires read < |buf| && count <= |buf| && k + 1 < count
    ensures var cur := Slot(read, k, |buf|);
      var next := Advance(cur, |buf|);
      && (CrLfAt(Contents(buf, read, count), k) <==> buf[cur] == 0x0D && buf[next] == 0x0A)
      && (if next >= read then next - read + 1 else |buf| - read + next + 1) == k + 2
  {
    ContentsPair(buf, read, count, k);
    AdvanceSlot(read, k, |buf|);
    SpanToSlot(read, k + 1, |buf|);
  }

  class RFD900x {
    const rxBuffer: array<bv8>
    var rxWriteIdx: nat
    var rxReadIdx: nat
    const txBuffer: array<bv8>
    var txWriteIdx: nat
    var txReadIdx: nat
    /** Text received over the link and not yet consumed by the AT handler. */
    var continuing: string
    /** Everything written to the serial port from the transmit buffer. */
    ghost var wire: seq<bv8>
    /** The AT exchanges with the radio, in order. */
    ghost var exchanges: seq<AtEvent>

    ghost predicate Valid()
      reads this
    {
      rxBuffer.Length == RxBufferSize && txBuffer.Length == TxBufferSize && rxBuffer != txBuffer &&
      rxWriteIdx < RxBufferSize && rxReadIdx < RxBufferSize &&
      txWriteIdx < TxBufferSize && txReadIdx < TxBufferSize
    }

    /** The number of bytes waiting in the receive buffer. */
    function RxCount(): nat
      reads this
      requires Valid()
    {
      Used(rxWriteIdx, rxReadIdx, RxBufferSize)
    }

    /** The bytes waiting in the receive buffer, oldest first. */
    ghost function RxContents(): seq<bv8>
      reads this, rxBuffer
      requires Valid()
    {
      Contents(rxBuffer[..], rxReadIdx, RxCount())
    }

    /** getTxBufferUsage. */
    function GetTxBufferUsage(): nat
      reads this
      requires Valid()
    {
      Used(txWriteIdx, txReadIdx, TxBufferSize)
    }

    /** The bytes waiting in the transmit buffer, oldest first. */
    ghost function TxContents(): seq<bv8>
      reads this, txBuffer
      requires Valid()
    {
      Contents(txBuffer[..], txReadIdx, GetTxBufferUsage())
    }

    /** The constructor: all four indices 0, so both buffers are empty. */
    constructor ()
      ensures Valid()
      ensures RxContents() == [] && TxContents() == []
      ensures continuing == "" && wire == [] && exchanges == []
    {
      rxBuffer := new bv8[RxBufferSize](_ => 0);
      txBuffer := new bv8[TxBufferSize](_ => 0);
      rxWriteIdx, rxReadIdx, txWriteIdx, txReadIdx := 0, 0, 0, 0;
      continuing := "";
      wire := [];
      exchanges := [];
    }

    /** handleRxByte: store one received byte unless the buffer is full, one slot always
        being kept free. */
    method HandleRxByte(b: bv8)
      requires Valid()
      modifies rxBuffer, this`rxWriteIdx
      ensures Valid()
      ensures old(RxCount()) < RxBufferSize - 1 ==> RxContents() == old(RxContents()) + [b]
      ensures old(RxCount()) == RxBufferSize - 1 ==>
        rxWriteIdx == old(rxWriteIdx) && rxBuffer[..] == old(rxBuffer[..])
    {
      var count := RxCount();
      AdvanceSlot(rxReadIdx, count, RxBufferSize);
      UsedSlot(rxReadIdx, count + 1, RxBufferSize);
      ContentsWrite(rxBuffer[..], rxReadIdx, count, b);
      NextRxIndex(rxWriteIdx);
      var nextWriteIdx := (rxWriteIdx + 1) % RxBufferSize;
      if nextWriteIdx != rxReadIdx {
        rxBuffer[rxWriteIdx] := b;
        rxWriteIdx := nextWriteIdx;
      }
    }

    /** readFromRxBuffer: move up to maxLen of the oldest waiting bytes into buf, in
        order, and return how many were moved. */
    method ReadFromRxBuffer(buf: array<bv8>, maxLen: nat) returns (bytesRead: nat)
      requires Valid()
      requires buf != rxBuffer && buf != txBuffer && maxLen <= buf.Length
      modifies buf, this`rxReadIdx
      ensures Valid()
      ensures bytesRead == Min(maxLen, old(RxCount()))
      ensures buf[..bytesRead] == old(RxContents())[..bytesRead]
      ensures buf[bytesRead..] == old(buf[bytesRead..])
      ensures RxContents() == old(RxContents())[bytesRead..]
    {
      ghost var waiting := RxContents();
      ghost var start := rxReadIdx;
      bytesRead := 0;
      while bytesRead < maxLen && rxReadIdx != rxWriteIdx
        invariant bytesRead <= maxLen && bytesRead <= |waiting|
        invariant rxReadIdx == Slot(start, bytesRead, RxBufferSize)
        invariant forall j :: 0 <= j < bytesRead ==> buf[j] == waiting[j]
        invariant forall j :: bytesRead <= j < buf.Length ==> buf[j] == old(buf[j])
        decreases |waiting| - bytesRead
      {
        assert waiting[bytesRead] == rxBuffer[rxReadIdx];
        AdvanceSlot(start, bytesRead, RxBufferSize);
        buf[bytesRead] := rxBuffer[rxReadIdx];
        bytesRead := bytesRead + 1;
        NextRxIndex(rxReadIdx);
        rxReadIdx := (rxReadIdx + 1) % RxBufferSize;
      }
      if bytesRead < maxLen {
        SlotInjective(start, bytesRead, |waiting|, RxBufferSize);
      }
      DrainPrefix(rxBuffer[..], rxWriteIdx, start, bytesRead);
      assert buf[..bytesRead] == waiting[..bytesRead];
      assert buf[bytesRead..] == old(buf[bytesRead..]);
    }

    /** getFirstPacketLength: the length of the first CR LF-terminated packet waiting, CR LF
        included, or 0; nothing is consumed. */
    method GetFirstPacketLength() returns (length: nat)
      requires Valid()
      ensures length == FirstPacketLength(RxContents())
    {
      ghost var waiting := RxContents();
      var currentIdx := rxReadIdx;
      var bytesToSearch := RxCount();
      if bytesToSearch < 2 {
        assert FirstPacketFrom(waiting, 0) == 0;
        return 0;
      }
      assert waiting == Contents(rxBuffer[..], rxReadIdx, bytesToSearch);
      var searchCount: nat := 0;
      while searchCount < bytesToSearch - 1
        invariant searchCount <= bytesToSearch - 1
        invariant currentIdx == Slot(rxReadIdx, searchCount, RxBufferSize)
        invariant FirstPacketFrom(waiting, searchCount) == FirstPacketFrom(waiting, 0)
      {
        var currentByte := rxBuffer[currentIdx];
        // nextIdx is a uint8_t in the source; the value is below 256, so nothing is cut off.
        NextRxIndex(currentIdx);
        var nextIdx := (currentIdx + 1) % RxBufferSize;
        var nextByte := rxBuffer[nextIdx];
        ScanStep(rxBuffer[..], rxReadIdx, bytesToSearch, searchCount);
        if currentByte == 0x0D && nextByte == 0x0A {
          if nextIdx >= rxReadIdx {
            length := (nextIdx - rxReadIdx) + 1;
          } else {
            length := (RxBufferSize - rxReadIdx) + nextIdx + 1;
          }
          assert length == searchCount + 2 && CrLfAt(waiting, searchCount);
          assert FirstPacketFrom(waiting, searchCount) == searchCount + 2;
          return;
        }
        currentIdx := nextIdx;
        searchCount := searchCount + 1;
      }
      assert FirstPacketFrom(waiting, searchCount) == 0;
      return 0;
    }

    /** flushTxBuffer: send every waiting byte, oldest first; the buffer ends empty. */
    method FlushTxBuffer()
      requires Valid()
      modifies this`txReadIdx, this`wire
      ensures Valid()
      ensures wire == old(wire) + old(TxContents())
      ensures txReadIdx == txWriteIdx && TxContents() == []
    {
      ghost var waiting := TxContents();
      ghost var start := txReadIdx;
      ghost var sent: nat := 0;
      while txReadIdx != txWriteIdx
        invariant sent <= |waiting|
        invariant txReadIdx == Slot(start, sent, TxBufferSize)
        invariant wire == old(wire) + waiting[..sent]
        decreases |waiting| - sent
      {
        assert waiting[sent] == txBuffer[txReadIdx];
        assert waiting[..sent + 1] == waiting[..sent] + [txBuffer[txReadIdx]];
        AdvanceSlot(start, sent, TxBufferSize);
        wire := wire + [txBuffer[txReadIdx]];
        NextTxIndex(txReadIdx);
        txReadIdx := (txReadIdx + 1) % TxBufferSize;
        sent := sent + 1;
      }
      SlotInjective(start, sent, |waiting|, TxBufferSize);
      assert waiting[..sent] == waiting;
    }

    /** The copy loop of writeToTxBuffer: pack[0..len) goes into the slots after the waiting
        bytes, which the caller has made room for. */
    method AppendTx(pack: array<bv8>, len: nat)
      requires Valid()
      requires pack != txBuffer && len <= pack.Length
      requires GetTxBufferUsage() + len <= TxBufferSize
      modifies txBuffer, this`txWriteIdx
      ensures Valid()
      ensures Contents(txBuffer[..], txReadIdx, old(GetTxBufferUsage()) + len) == old(TxContents()) + pack[..len]
      ensures txWriteIdx == Slot(txReadIdx, old(GetTxBufferUsage()) + len, TxBufferSize)
    {
      ghost var waiting := TxContents();
      ghost var used := GetTxBufferUsage();
      for i := 0 to len
        invariant Valid()
        invariant Contents(txBuffer[..], txReadIdx, used + i) == waiting + pack[..i]
        invariant txWriteIdx == Slot(txReadIdx, used + i, TxBufferSize)
      {
        ContentsWrite(txBuffer[..], txReadIdx, used + i, pack[i]);
        AdvanceSlot(txReadIdx, used + i, TxBufferSize);
        assert pack[..i + 1] == pack[..i] + [pack[i]];
        txBuffer[txWriteIdx] := pack[i];
        NextTxIndex(txWriteIdx);
        txWriteIdx := (txWriteIdx + 1) % TxBufferSize;
      }
    }

    /** writeToTxBuffer: refuse a packet over 32 bytes; flush first when the packet does
        not fit; then append it. A packet that fills the 512 slots exactly is not flushed
        first, and the write index lands on the read index: the buffer then reads as
        empty and its bytes are never sent. */
    method WriteToTxBuffer(pack: array<bv8>, len: nat) returns (ok: bool)
      requires Valid()
      requires pack != txBuffer && (len <= MaxPacketSize ==> len <= pack.Length)
      modifies txBuffer, this`txWriteIdx, this`txReadIdx, this`wire
      ensures Valid()
      ensures ok <==> len <= MaxPacketSize
      ensures !ok ==> txWriteIdx == old(txWriteIdx) && txReadIdx == old(txReadIdx) && wire == old(wire)
      ensures !ok ==> txBuffer[..] == old(txBuffer[..])
      ensures ok && old(GetTxBufferUsage()) + len > TxBufferSize ==>
        wire == old(wire) + old(TxContents()) && TxContents() == pack[..len]
      ensures ok && old(GetTxBufferUsage()) + len < TxBufferSize ==>
        wire == old(wire) && TxContents() == old(TxContents()) + pack[..len]
      ensures ok && old(GetTxBufferUsage()) + len == TxBufferSize ==>
        wire == old(wire) && TxContents() == []
    {
      if len > MaxPacketSize {
        return false;
      }
      var spaceNeeded := len;
      var currentUsage := GetTxBufferUsage();
      if currentUsage + spaceNeeded > TxBufferSize {
        FlushTxBuffer();
      }
      ghost var used := GetTxBufferUsage();
      AppendTx(pack, len);
      UsedSlot(txReadIdx, used + len, TxBufferSize);
      return true;
    }

    /** writeToTxBuffer with the flush taken when the packet exactly fills the buffer
        (`>=`): every accepted packet is then sent, after everything written before it. */
    method WriteToTxBufferIntended(pack: array<bv8>, len: nat) returns (ok: bool)
      requires Valid()
      requires pack != txBuffer && (len <= MaxPacketSize ==> len <= pack.Length)
      modifies txBuffer, this`txWriteIdx, this`txReadIdx, this`wire
      ensures Valid()
      ensures ok <==> len <= MaxPacketSize
      ensures !ok ==> txWriteIdx == old(txWriteIdx) && txReadIdx == old(txReadIdx) && wire == old(wire)
      ensures ok ==> wire + TxContents() == old(wire + TxContents()) + pack[..len]
      ensures ok ==> GetTxBufferUsage() >= len
    {
      if len > MaxPacketSize {
        return false;
      }
      ghost var before := wire + TxContents();
      var currentUsage := GetTxBufferUsage();
      if currentUsage + len >= TxBufferSize {
        FlushTxBuffer();
      }
      ghost var used := GetTxBufferUsage();
      ghost var sent := wire;
      ghost var waiting := TxContents();
      assert sent + waiting == before && used + len < TxBufferSize;
      AppendTx(pack, len);
      UsedSlot(txReadIdx, used + len, TxBufferSize);
      assert GetTxBufferUsage() == used + len;
      assert TxContents() == waiting + pack[..len];
      assert sent + (waiting + pack[..len]) == (sent + waiting) + pack[..len];
      return true;
    }

    /** enterATMode: send "+++" and read the reply into resp[16]. Any reply that reads
        as non-empty counts as success, so the check for "OK" adds nothing; a reply
        starting with NUL reads as empty. */
    method EnterATMode(resp: string) returns (ok: bool)
      modifies this`exchanges
      ensures exchanges == old(exchanges) + [EnterAt]
      ensures ok <==> resp != [] && resp[0] != '\0'
    {
      exchanges := exchanges + [EnterAt];
      var s := Received(resp);
      ok := IndexOf(s, "OK", 0) >= 0 || |s| > 0;
      ReceivedNonEmpty(resp);
    }

    /** exitATMode: write the settings and restart the radio. */
    method ExitATMode()
      modifies this`exchanges
      ensures exchanges == old(exchanges) + [ExitAt]
    {
      exchanges := exchanges + [ExitAt];
    }

    /** getParameter: ask for register `parameter` and read the radio's reply `resp`
        into resp[16]; the value is taken from what was read. */
    method GetParameter(parameter: string, resp: string) returns (value: string)
      modifies this`exchanges
      ensures exchanges == old(exchanges) + [QueryParam(parameter)]
      ensures value == ParameterValue(Received(resp))
    {
      exchanges := exchanges + [QueryParam(parameter)];
      var s := Received(resp);
      var first := IndexOfChar(s, '\n', 0);
      var last := LastIndexOfChar(s, '\n');
      value := Substring(s, first + 1, if last == -1 then |s| else last);
    }

    /** changeParameter: set register `parameter` to `value`, read the register back
        (`resp`, into resp[16]) and report whether the value appears in what was read.
        indexOf gives -1 on an empty read even for an empty value. */
    method ChangeParameter(parameter: string, value: string, resp: string) returns (ok: bool)
      modifies this`exchanges
      ensures exchanges == old(exchanges) + [SetParam(parameter, value)]
      ensures ok <==> exists k: nat :: k < |Received(resp)| && OccursAt(Received(resp), value, k)
    {
      exchanges := exchanges + [SetParam(parameter, value)];
      var s := Received(resp);
      var found := IndexOf(s, value, 0);
      ok := found >= 0;
      if ok {
        assert found < |s| && OccursAt(s, value, found);
      }
    }

    method ChangeNetID(id: int, resp: string) returns (ok: bool)
      modifies this`exchanges
      ensures exchanges == old(exchanges) + [SetParam("3", Decimal(id))]
      ensures ok <==> exists k: nat :: k < |Received(resp)| && OccursAt(Received(resp), Decimal(id), k)
    {
      ok := ChangeParameter("3", Decimal(id), resp);
    }

    method ChangeSerialSpeed(speed: int, resp: string) returns (ok: bool)
      modifies this`exchanges
      ensures exchanges == old(exchanges) + [SetParam("1", Decimal(speed))]
      ensures ok <==> exists k: nat :: k < |Received(resp)| && OccursAt(Received(resp), Decimal(speed), k)
    {
      ok := ChangeParameter("1", Decimal(speed), resp);
    }

    method ChangeAirSpeed(speed: int, resp: string) returns (ok: bool)
      modifies this`exchanges
      ensures exchanges == old(exchanges) + [SetParam("2", Decimal(speed))]
      ensures ok <==> exists k: nat :: k < |Received(resp)| && OccursAt(Received(resp), Decimal(speed), k)
    {
      ok := ChangeParameter("2", Decimal(speed), resp);
    }

    method GetNetID(resp: string) returns (value: string)
      modifies this`exchanges
      ensures exchanges == old(exchanges) + [QueryParam("3")] && value == ParameterValue(Received(resp))
    {
      value := GetParameter("3", resp);
    }

    method GetSerialSpeed(resp: string) returns (value: string)
      modifies this`exchanges
      ensures exchanges == old(exchanges) + [QueryParam("1")] && value == ParameterValue(Received(resp))
    {
      value := GetParameter("1", resp);
    }

    method GetAirSpeed(resp: string) returns (value: string)
      modifies this`exchanges
      ensures exchanges == old(exchanges) + [QueryParam("2")] && value == ParameterValue(Received(resp))
    {
      value := GetParameter("2", resp);
    }

    /** The set branch of the pair loop: a known key is sent its value as toInt reads it;
        `resp` is the radio's reply to the read-back. */
    method HandleSet(key: string, value: string, resp: string)
      modifies this`exchanges
      ensures exchanges == old(exchanges) + SetEvent(key, value)
    {
      if key == "netid" {
        var netId := ToInt(value);
        var _ := ChangeNetID(netId, resp);
      } else if key == "serialspeed" {
        var speed := ToInt(value);
        var _ := ChangeSerialSpeed(speed, resp);
      } else if key == "airspeed" {
        var speed := ToInt(value);
        var _ := ChangeAirSpeed(speed, resp);
      }
    }

    /** The query branch of the pair loop: a known key is read, `resp` being the radio's
        reply, and answered on a line. */
    method HandleQuery(key: string, resp: string) returns (line: string)
      modifies this`exchanges
      ensures exchanges == old(exchanges) + QueryEvent(key)
      ensures line == QueryLine(key, resp)
    {
      line := "";
      if key == "netid" {
        var currentValue := GetNetID(resp);
        assert key + "=" == "netid=";
        line := "netid=" + currentValue + "\n";
      } else if key == "serialspeed" {
        var currentValue := GetSerialSpeed(resp);
        assert key + "=" == "serialspeed=";
        line := "serialspeed=" + currentValue + "\n";
      } else if key == "airspeed" {
        var currentValue := GetAirSpeed(resp);
        assert key + "=" == "airspeed=";
        line := "airspeed=" + currentValue + "\n";
      }
    }

    /** One `key=value` or `key?` pair of a command: the exchange it causes and the reply
        line it adds; `resp` is what the radio sends back to the pair's read. */
    method HandlePair(pair: string, resp: string) returns (line: string)
      modifies this`exchanges
      ensures exchanges == old(exchanges) + PairEvents(pair)
      ensures line == PairReply(pair, resp)
    {
      // ParsePair is the indexOf('=') / indexOf('?') split of the source, with its
      // substrings; '=' is looked for first.
      line := "";
      match ParsePair(pair)
      case Set(key, value) =>
        HandleSet(key, value, resp);
      case Query(key) =>
        line := HandleQuery(key, resp);
      case Ignored =>
    }

    /** The pair loop of handleATReceiving over a command already stripped of its dashes.
        `replies` are the radio's replies to the command's reads in order; `readCount` counts
        the reads made so far, so each pair gets the next reply. */
    method HandlePairs(command: string, replies: seq<string>) returns (result: string)
      modifies this`exchanges
      ensures exchanges == old(exchanges) + EventsOf(Segments(command))
      ensures result == "\n" + RepliesOf(Segments(command), replies)
    {
      result := "\n";
      ghost var done: seq<string> := [];
      var lastIndex: nat := 0;
      var readCount: nat := 0;
      while lastIndex < |command|
        invariant done + SegmentsFrom(command, lastIndex) == Segments(command)
        invariant result == "\n" + RepliesOf(done, replies)
        invariant exchanges == old(exchanges) + EventsOf(done)
        invariant readCount == |EventsOf(done)|
        decreases |command| - lastIndex
      {
        // indexOf('&', lastIndex), or the length when there is none; then
        // substring(lastIndex, ampersandIndex), whose bounds are in order and in range.
        var ampersandIndex := PieceEnd(command, lastIndex);
        var pair := command[lastIndex..ampersandIndex];
        var line := HandlePair(pair, ReplyAt(replies, readCount));
        PairStep(command, lastIndex, done, pair, replies, old(exchanges), exchanges, readCount, result, line);
        readCount := readCount + |PairEvents(pair)|;
        result := result + line;
        done := done + [pair];
        lastIndex := ampersandIndex + 1;
      }
      SegmentsDone(command, lastIndex, done);
    }

    /** The body of handleATReceiving once in AT mode: a command that starts and ends
        with '-' is run pair by pair; the reply starts with "\n". */
    method RunCommand(command: string, replies: seq<string>) returns (result: string)
      modifies this`exchanges
      ensures exchanges == old(exchanges) + CommandEvents(command)
      ensures result == CommandReply(command, replies)
    {
      result := "\n";
      if StartsWithDash(command) && EndsWithDash(command) {
        var inner := Inner(command);
        result := HandlePairs(inner, replies);
      } else {
        assert exchanges == old(exchanges) + [];
        assert result == "\n" + "";
      }
    }

    /** handleATReceiving: add the received text, up to its first NUL, to what is pending; once it holds
        "rocket...end" and the radio enters AT mode, run the command between them, leave
        AT mode, send the reply and drop everything pending. `atResponse` is the radio's
        reply to "+++" and `replies` its replies to the command's register reads, in
        order. */
    method HandleATReceiving(buf: string, atResponse: string, replies: seq<string>)
      modifies this`continuing, this`exchanges
      ensures !Framed(old(continuing) + CString(buf)) ==>
        continuing == old(continuing) + CString(buf) && exchanges == old(exchanges)
      ensures Framed(old(continuing) + CString(buf)) && (atResponse == [] || atResponse[0] == '\0') ==>
        continuing == old(continuing) + CString(buf) && exchanges == old(exchanges) + [EnterAt]
      ensures Framed(old(continuing) + CString(buf)) && atResponse != [] && atResponse[0] != '\0' ==>
        continuing == "" &&
        exchanges == old(exchanges) + [EnterAt] + CommandEvents(FramedCommand(old(continuing) + CString(buf))) +
                     [ExitAt, Send(CommandReply(FramedCommand(old(continuing) + CString(buf)), replies))]
    {
      continuing := continuing + CString(buf);
      var startIndex := IndexOf(continuing, StartTag, 0);
      var endIndex := -1;
      if startIndex != -1 {
        endIndex := IndexOf(continuing, EndTag, startIndex);
      }
      if startIndex != -1 && endIndex != -1 {
        var inAtMode := EnterATMode(atResponse);
        if inAtMode {
          var command := Substring(continuing, startIndex + |StartTag|, endIndex);
          assert command == FramedCommand(continuing);
          continuing := Substring(continuing, endIndex + |EndTag|, |continuing|);
          var result := RunCommand(command, replies);
          ExitATMode();
          exchanges := exchanges + [Send(result)];
          continuing := "";
        }
      }
    }
  }

  /** A transmit buffer holding 480 bytes that is given a 32-byte packet: the write index
      wraps onto the read index and the 512 bytes held read as none. */
  lemma ExactFillReadsEmpty(read: nat)
    requires read < TxBufferSize
    ensures Used(Slot(read, 480 + MaxPacketSize, TxBufferSize), read, TxBufferSize) == 0
  {
  }
}
