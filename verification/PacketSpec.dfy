/** The packet protocol: the receiver's transitions, the sender's frames, and a one-shot grammar
    of the byte stream that the receiver is proved to follow. */
module PacketSpec {
  import opened Common

  type Bytes = seq<Byte>
  /** The checksum is a parameter: any function of the payload. */
  type Checksum = Bytes -> Half

  const PACKET_TIMEOUT: nat := 1000
  const PACKET_START: Byte := 80
  const PACKET_LONG_START: Byte := 81
  const PACKET_END: Byte := 10
  const BUFFER_SIZE: nat := 2048

  datatype PacketState = START | LENGTH_HIGH | LENGTH_LOW | DATA | CRC_HIGH | CRC_LOW | END

  type Buffer = b: Bytes | |b| == BUFFER_SIZE witness seq(BUFFER_SIZE, _ => 0)

  datatype Receiver = Receiver(state: PacketState, index: nat, length: Half, crc: Half, buffer: Buffer, timeout: nat)

  /** The receiver and the payloads it has handed to process_packet. */
  datatype Fed = Fed(receiver: Receiver, dispatched: seq<Bytes>)

  function Pair(high: Byte, low: Byte): Half {
    var h: int := high;
    h * 256 + low
  }

  /** Byte 2 of a big-endian pair: the low byte of what is there is still zero. */
  function WithLow(high: Half, low: Byte): Half {
    high - high % 256 + low
  }

  /** packet_process_byte. A write past the end of the buffer, which only a declared length
      above 2048 leads to, is left out: it is not defined what it changes. */
  function Step(crc16: Checksum, s: Receiver, byte: Byte): Fed {
    match s.state
    case START =>
      if byte == PACKET_START || byte == PACKET_LONG_START then
        Fed(s.(state := if byte == PACKET_START then LENGTH_LOW else LENGTH_HIGH,
               index := 0, length := 0, timeout := PACKET_TIMEOUT), [])
      else Fed(s, [])
    case LENGTH_HIGH => Fed(s.(length := Pair(byte, 0), state := LENGTH_LOW, timeout := PACKET_TIMEOUT), [])
    case LENGTH_LOW => Fed(s.(length := WithLow(s.length, byte), state := DATA, timeout := PACKET_TIMEOUT), [])
    case DATA =>
      var buffer := if s.index < BUFFER_SIZE then s.buffer[s.index := byte] else s.buffer;
      Fed(s.(buffer := buffer, index := s.index + 1,
             state := if s.index + 1 >= s.length then CRC_HIGH else DATA, timeout := PACKET_TIMEOUT), [])
    case CRC_HIGH => Fed(s.(crc := Pair(byte, 0), state := CRC_LOW, timeout := PACKET_TIMEOUT), [])
    case CRC_LOW => Fed(s.(crc := WithLow(s.crc, byte), state := END, timeout := PACKET_TIMEOUT), [])
    case END =>
      if byte == PACKET_END then
        Fed(s.(index := 0, state := START, timeout := PACKET_TIMEOUT),
            if s.length <= BUFFER_SIZE && crc16(s.buffer[..s.length]) == s.crc then [s.buffer[..s.length]] else [])
      else Fed(s, [])
  }

  function Feed(crc16: Checksum, s: Receiver, bytes: Bytes): Fed
    decreases |bytes|
  {
    if bytes == [] then Fed(s, [])
    else
      var first := Step(crc16, s, bytes[0]);
      var rest := Feed(crc16, first.receiver, bytes[1..]);
      Fed(rest.receiver, first.dispatched + rest.dispatched)
  }

  /** packet_timeout, called once a millisecond. */
  function Tick(s: Receiver): Receiver {
    if s.timeout > 0 then s.(timeout := s.timeout - 1) else s.(state := START)
  }

  // ---- The sender ----

  function High(n: Half): Byte { n / 256 }

  function Low(n: Half): Byte { n % 256 }

  /** packet_send_packet: the long form for payloads over 255 bytes. */
  function Header(len: Half): Bytes {
    if len > 255 then [PACKET_LONG_START, High(len), Low(len)] else [PACKET_START, len]
  }

  function Encode(crc16: Checksum, payload: Bytes): Bytes
    requires |payload| < 0x1_0000
  {
    Header(|payload|) + payload + [High(crc16(payload)), Low(crc16(payload))] + [PACKET_END]
  }

  // ---- The grammar ----

  predicate IsStart(b: Byte) {
    b == PACKET_START || b == PACKET_LONG_START
  }

  /** Position of the first newline at or after i; |s| if there is none. */
  function Newline(s: Bytes, i: nat): (r: nat)
    requires i <= |s|
    ensures i <= r <= |s| && (r < |s| ==> s[r] == PACKET_END)
    ensures forall j :: i <= j < r ==> s[j] != PACKET_END
    decreases |s| - i
  {
    if i == |s| || s[i] == PACKET_END then i else Newline(s, i + 1)
  }

  /** Bytes the receiver stores for a declared length: never none. */
  function Stored(len: nat): nat {
    if len == 0 then 1 else len
  }

  /** One-shot grammar: junk up to a start byte, a length in one byte or two, the data, the
      checksum, anything up to a newline. A payload counts if its checksum matches. */
  function Parse(crc16: Checksum, s: Bytes): seq<Bytes>
    decreases |s|
  {
    if s == [] then []
    else if s[0] == PACKET_START then (if |s| < 2 then [] else ParseBody(crc16, s[1], s[2..]))
    else if s[0] == PACKET_LONG_START then (if |s| < 3 then [] else ParseBody(crc16, Pair(s[1], s[2]), s[3..]))
    else Parse(crc16, s[1..])
  }

  function ParseBody(crc16: Checksum, len: nat, s: Bytes): seq<Bytes>
    decreases |s|
  {
    var n := Stored(len);
    if |s| < n + 2 then []
    else
      var nl := Newline(s, n + 2);
      if nl == |s| then []
      else
        (if crc16(s[..len]) == Pair(s[n], s[n + 1]) then [s[..len]] else [])
        + Parse(crc16, s[nl + 1..])
  }

  /** Every length the stream declares is at most 2048. */
  predicate Tame(s: Bytes)
    decreases |s|
  {
    if s == [] then true
    else if s[0] == PACKET_START then |s| < 2 || TameBody(s[1], s[2..])
    else if s[0] == PACKET_LONG_START then |s| < 3 || TameBody(Pair(s[1], s[2]), s[3..])
    else Tame(s[1..])
  }

  predicate TameBody(len: nat, s: Bytes)
    decreases |s|
  {
    var n := Stored(len);
    len <= BUFFER_SIZE
    && (|s| < n + 2 || Newline(s, n + 2) == |s| || Tame(s[Newline(s, n + 2) + 1..]))
  }
}
