/** packet.c and the USB threads of comm_usb.c as they run: the receiver's static variables, the
    sender's buffer, and the receiver fed through the ring. */
module Link {
  import opened Common
  import opened PacketSpec
  import opened PacketProofs
  import R = Ring

  /** The low byte that the next `|=` fills is zero. */
  predicate LowByteClear(s: Receiver) {
    (s.state == LENGTH_LOW ==> s.length % 256 == 0) && (s.state == CRC_LOW ==> s.crc % 256 == 0)
  }

  lemma StaysClear(crc16: Checksum, s: Receiver, byte: Byte)
    requires LowByteClear(s)
    ensures LowByteClear(Step(crc16, s, byte).receiver)
  {
  }

  class PacketReceiver {
    var processState: PacketState
    var packetIndex: nat
    var packetLength: Half
    var packetCrc: Half
    const packetBuffer: array<Byte>
    var processTimeout: nat
    const crc16: Checksum
    /** The payloads handed to process_packet. */
    ghost var dispatched: seq<Bytes>

    ghost predicate Valid()
      reads this, packetBuffer
    {
      packetBuffer.Length == BUFFER_SIZE && LowByteClear(Value())
    }

    ghost function Value(): Receiver
      requires packetBuffer.Length == BUFFER_SIZE
      reads this, packetBuffer
    {
      Receiver(processState, packetIndex, packetLength, packetCrc, packetBuffer[..], processTimeout)
    }

    constructor (crc16: Checksum)
      ensures Valid() && Value().state == START && dispatched == [] && this.crc16 == crc16 && fresh(packetBuffer)
    {
      processState, packetIndex, packetLength, packetCrc := START, 0, 0, 0;
      packetBuffer := new Byte[BUFFER_SIZE](_ => 0);
      processTimeout := PACKET_TIMEOUT;
      this.crc16 := crc16;
      dispatched := [];
    }

    /** packet_process_byte, wherever it stays inside the buffer; IndexInBuffer says when it does. */
    method ProcessByte(byte: Byte)
      requires Valid() && InMemory(Value(), byte)
      modifies this, packetBuffer
      ensures Valid()
      ensures var fed := Step(crc16, old(Value()), byte);
              Value() == fed.receiver && dispatched == old(dispatched) + fed.dispatched
    {
      StaysClear(crc16, Value(), byte);
      match processState {
        case START =>
          if byte == PACKET_START || byte == PACKET_LONG_START {
            if byte == PACKET_START {
              processState := LENGTH_LOW;
            } else {
              processState := LENGTH_HIGH;
            }
            packetIndex := 0;
            packetLength := 0;
            processTimeout := PACKET_TIMEOUT;
          }
        case LENGTH_HIGH =>
          packetLength := Pair(byte, 0);
          processState := LENGTH_LOW;
          processTimeout := PACKET_TIMEOUT;
        case LENGTH_LOW =>
          packetLength := packetLength + byte;
          if packetLength <= 0 || packetLength > 2048 {
            processState := START;
          }
          processState := DATA;
          processTimeout := PACKET_TIMEOUT;
        case DATA =>
          ghost var was := packetBuffer[..];
          packetBuffer[packetIndex] := byte;
          assert packetBuffer[..] == was[packetIndex := byte];
          packetIndex := packetIndex + 1;
          if packetIndex >= packetLength {
            processState := CRC_HIGH;
          }
          processTimeout := PACKET_TIMEOUT;
        case CRC_HIGH =>
          packetCrc := Pair(byte, 0);
          processState := CRC_LOW;
          processTimeout := PACKET_TIMEOUT;
        case CRC_LOW =>
          packetCrc := packetCrc + byte;
          processState := END;
          processTimeout := PACKET_TIMEOUT;
        case END =>
          if byte == PACKET_END {
            if crc16(packetBuffer[..packetLength]) == packetCrc {
              dispatched := dispatched + [packetBuffer[..packetLength]];
            }
            packetIndex := 0;
            processState := START;
            processTimeout := PACKET_TIMEOUT;
          }
      }
    }

    /** packet_timeout. */
    method Timeout()
      requires Valid()
      modifies this
      ensures Valid() && Value() == Tick(old(Value())) && dispatched == old(dispatched)
    {
      if processTimeout > 0 {
        processTimeout := processTimeout - 1;
      } else {
        processState := START;
      }
    }

    /** packet_send_packet: the bytes given to comm_usb_send, built in a buffer of 512. */
    method SendPacket(data: Bytes) returns (sent: Bytes)
      requires |data| <= 506
      ensures sent == Encode(crc16, data)
      ensures var n := |data|; var h := if n <= 255 then 2 else 3;
              && |sent| == h + n + 3
              && (n <= 255 ==> sent[..2] == [80, n]) && (n > 255 ==> sent[..3] == [81, n / 256, n % 256])
              && sent[h..h + n] == data
              && 256 * sent[h + n] as int + sent[h + n + 1] == crc16(data) && sent[h + n + 2] == 10
    {
      EncodeIs(crc16, data);
      var buffer := new Byte[512](_ => 0);
      var inx := 0;
      if |data| > 255 {
        buffer[0] := PACKET_LONG_START;
        buffer[1] := High(|data|);
        buffer[2] := Low(|data|);
        inx := 3;
      } else {
        buffer[0] := PACKET_START;
        buffer[1] := |data|;
        inx := 2;
      }
      assert buffer[..inx] == Header(|data|);
      ghost var h := inx;
      forall k | 0 <= k < |data| {
        buffer[inx + k] := data[k];
      }
      inx := inx + |data|;
      assert buffer[..inx] == Header(|data|) + data;
      var crc := crc16(data);
      buffer[inx] := High(crc);
      buffer[inx + 1] := Low(crc);
      buffer[inx + 2] := PACKET_END;
      inx := inx + 3;
      assert buffer[..inx] == buffer[..h + |data|] + [High(crc), Low(crc), PACKET_END];
      return buffer[..inx];
    }
  }

  // ---- The receiver behind the ring ----

  /** What the processing thread has dispatched: it feeds each byte it takes to the receiver. */
  ghost function Processed(crc16: Checksum, s: Receiver, sys: R.System<Byte>): seq<Bytes> {
    Feed(crc16, s, sys.consumed).dispatched
  }

  /** The two USB threads together: whatever the interleaving, with at most 2047 bytes
      outstanding, the payloads dispatched so far are an initial part of what parsing the produced
      bytes directly gives, and all of it once the consumer finds the ring empty. */
  lemma ThreadsParseTheStream(crc16: Checksum, s: Receiver, cells: Bytes, actions: seq<R.Action<Byte>>)
    requires |cells| >= 1 && s.state == START
    requires R.IsRun(R.System(R.Ring(cells, 0, 0, R.AtTest), [], []), actions)
    ensures var sys := R.Final(R.System(R.Ring(cells, 0, 0, R.AtTest), [], []), actions);
            && Processed(crc16, s, sys) <= Feed(crc16, s, sys.produced).dispatched
            && (sys.ring.phase.AtTest? && !R.SeesItem(sys.ring) && Tame(sys.produced) ==>
                  Processed(crc16, s, sys) == Parse(crc16, sys.produced))
  {
    var sys0 := R.System(R.Ring(cells, 0, 0, R.AtTest), [], []);
    R.InitialInv(cells);
    R.InOrderAlways(sys0, actions);
    var sys := R.Final(sys0, actions);
    assert sys.produced == sys.consumed + sys.produced[|sys.consumed|..];
    FeedConcat(crc16, s, sys.consumed, sys.produced[|sys.consumed|..]);
    if Tame(sys.produced) {
      FollowsGrammar(crc16, s, sys.produced);
    }
  }
}
