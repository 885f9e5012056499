/** The receiver follows the grammar, and sender and receiver are inverses. */
module PacketProofs {
  import opened Common
  import opened PacketSpec

  lemma {:induction false} FeedConcat(crc16: Checksum, s: Receiver, a: Bytes, b: Bytes)
    ensures var first := Feed(crc16, s, a); var second := Feed(crc16, first.receiver, b);
            Feed(crc16, s, a + b) == Fed(second.receiver, first.dispatched + second.dispatched)
    decreases |a|
  {
    hide Step;
    if a == [] {
      assert a + b == b;
    } else {
      assert (a + b)[1..] == a[1..] + b;
      FeedConcat(crc16, Step(crc16, s, a[0]).receiver, a[1..], b);
    }
  }

  lemma FeedOne(crc16: Checksum, s: Receiver, b: Byte)
    ensures Feed(crc16, s, [b]) == Step(crc16, s, b)
  {
    assert [b][1..] == [];
  }

  /** Between frames, bytes that start no frame change nothing. */
  lemma {:induction false} FeedJunk(crc16: Checksum, s: Receiver, junk: Bytes)
    requires s.state == START && forall i :: 0 <= i < |junk| ==> !IsStart(junk[i])
    ensures Feed(crc16, s, junk) == Fed(s, [])
    decreases |junk|
  {
    if junk != [] {
      FeedJunk(crc16, s, junk[1..]);
    }
  }

  /** While a frame's data lasts, each byte goes to the next place in the buffer. */
  lemma {:induction false} FeedData(crc16: Checksum, s: Receiver, data: Bytes)
    requires s.state == DATA && s.length <= BUFFER_SIZE && s.index + |data| <= Stored(s.length)
    requires s.index < Stored(s.length)
    ensures var r := Feed(crc16, s, data).receiver;
            && Feed(crc16, s, data).dispatched == []
            && r.index == s.index + |data| && r.length == s.length
            && r.buffer == s.buffer[..s.index] + data + s.buffer[s.index + |data|..]
            && r.state == (if r.index == Stored(s.length) then CRC_HIGH else DATA)
    decreases |data|
  {
    hide Step;
    if data == [] {
      assert s.buffer == s.buffer[..s.index] + data + s.buffer[s.index..];
    } else {
      DataStep(crc16, s, data[0]);
      var s1 := Step(crc16, s, data[0]).receiver;
      if |data| == 1 {
        assert data == [data[0]];
        FeedOne(crc16, s, data[0]);
      } else {
        FeedData(crc16, s1, data[1..]);
        BufferFills(s.buffer, s.index, data);
      }
    }
  }

  lemma BufferFills(buffer: Bytes, i: nat, data: Bytes)
    requires data != [] && i + |data| <= |buffer|
    ensures var next := buffer[i := data[0]];
            next[..i + 1] + data[1..] + next[i + |data|..] == buffer[..i] + data + buffer[i + |data|..]
  {
    assert buffer[i := data[0]][..i + 1] == buffer[..i] + [data[0]];
    assert buffer[i := data[0]][i + |data|..] == buffer[i + |data|..];
    assert [data[0]] + data[1..] == data;
  }

  lemma DataStep(crc16: Checksum, s: Receiver, b: Byte)
    requires s.state == DATA && s.length <= BUFFER_SIZE && s.index < Stored(s.length)
    ensures var fed := Step(crc16, s, b);
            && fed.dispatched == [] && fed.receiver.buffer == s.buffer[s.index := b]
            && fed.receiver.index == s.index + 1 && fed.receiver.length == s.length
            && fed.receiver.state == (if s.index + 1 == Stored(s.length) then CRC_HIGH else DATA)
  {
  }

  /** After the checksum the receiver waits for a newline, whatever comes before it. */
  lemma {:induction false} FeedWait(crc16: Checksum, s: Receiver, tail: Bytes)
    requires s.state == END && forall i :: 0 <= i < |tail| ==> tail[i] != PACKET_END
    ensures Feed(crc16, s, tail) == Fed(s, [])
    decreases |tail|
  {
    if tail != [] {
      FeedWait(crc16, s, tail[1..]);
    }
  }

  lemma FeedLength(crc16: Checksum, s: Receiver, header: Bytes)
    requires s.state == START && |header| >= 2
    requires header[0] == PACKET_START ==> |header| == 2
    requires header[0] != PACKET_START ==> header[0] == PACKET_LONG_START && |header| == 3
    ensures var fed := Feed(crc16, s, header);
            && fed.dispatched == [] && fed.receiver.state == DATA && fed.receiver.index == 0
            && fed.receiver.length == (if |header| == 2 then header[1] else Pair(header[1], header[2]))
  {
    FeedConcat(crc16, s, header[..1], header[1..]);
    assert header == header[..1] + header[1..];
    FeedOne(crc16, s, header[0]);
    assert header[..1] == [header[0]];
    var s1 := Step(crc16, s, header[0]).receiver;
    FeedOne(crc16, s1, header[1]);
    if |header| == 2 {
      assert header[1..] == [header[1]];
    } else {
      assert header[1..] == [header[1]] + [header[2]];
      FeedConcat(crc16, s1, [header[1]], [header[2]]);
      FeedOne(crc16, Step(crc16, s1, header[1]).receiver, header[2]);
    }
  }

  /** The two checksum bytes. */
  lemma FeedChecksum(crc16: Checksum, s: Receiver, hi: Byte, lo: Byte)
    requires s.state == CRC_HIGH
    ensures var fed := Feed(crc16, s, [hi, lo]);
            && fed.dispatched == [] && fed.receiver.state == END && fed.receiver.crc == Pair(hi, lo)
            && fed.receiver.buffer == s.buffer && fed.receiver.length == s.length
  {
    assert [hi, lo] == [hi] + [lo];
    FeedConcat(crc16, s, [hi], [lo]);
    FeedOne(crc16, s, hi);
    FeedOne(crc16, Step(crc16, s, hi).receiver, lo);
  }

  lemma FeedEnd(crc16: Checksum, s: Receiver)
    requires s.state == END && s.length <= BUFFER_SIZE
    ensures var fed := Feed(crc16, s, [PACKET_END]); var data := s.buffer[..s.length];
            fed.receiver.state == START && fed.dispatched == (if crc16(data) == s.crc then [data] else [])
  {
    FeedOne(crc16, s, PACKET_END);
  }

  /** A receiver at the start of a frame's data that is given data, checksum, filler and newline
      dispatches the payload if and only if the checksum matches, and is back at START. */
  lemma FeedBody(crc16: Checksum, s: Receiver, data: Bytes, hi: Byte, lo: Byte, tail: Bytes)
    requires s.state == DATA && s.index == 0 && s.length <= BUFFER_SIZE && |data| == Stored(s.length)
    requires forall i :: 0 <= i < |tail| ==> tail[i] != PACKET_END
    ensures var fed := Feed(crc16, s, data + [hi, lo] + tail + [PACKET_END]);
            && fed.receiver.state == START
            && fed.dispatched == (if crc16(data[..s.length]) == Pair(hi, lo) then [data[..s.length]] else [])
  {
    hide Feed, Step;
    FeedData(crc16, s, data);
    var s1 := Feed(crc16, s, data).receiver;
    FeedChecksum(crc16, s1, hi, lo);
    var s2 := Feed(crc16, s1, [hi, lo]).receiver;
    FeedWait(crc16, s2, tail);
    FeedEnd(crc16, s2);
    FeedConcat(crc16, s, data, [hi, lo]);
    FeedConcat(crc16, s, data + [hi, lo], tail);
    FeedConcat(crc16, s, data + [hi, lo] + tail, [PACKET_END]);
    assert s2.buffer[..s.length] == data[..s.length];
  }

  // ---- The frame ----

  /** The bytes of a frame: P or Q, the length in one byte or two, the payload, the checksum with its
      high byte first, and a newline. */
  lemma EncodeIs(crc16: Checksum, payload: Bytes)
    requires |payload| < 0x1_0000
    ensures var n, frame := |payload|, Encode(crc16, payload);
            var h := if n <= 255 then 2 else 3;
            && |frame| == h + n + 3
            && (n <= 255 ==> frame[..2] == [80, n])
            && (n > 255 ==> frame[..3] == [81, n / 256, n % 256])
            && frame[h..h + n] == payload
            && 256 * frame[h + n] as int + frame[h + n + 1] == crc16(payload)
            && frame[h + n + 2] == 10
  {
  }

  // ---- Round trip ----

  /** One encoded payload, fed to a receiver at START, is dispatched and nothing else is. */
  lemma FrameRoundTrip(crc16: Checksum, s: Receiver, payload: Bytes)
    requires s.state == START && 1 <= |payload| <= BUFFER_SIZE
    ensures var fed := Feed(crc16, s, Encode(crc16, payload));
            fed.receiver.state == START && fed.dispatched == [payload]
  {
    hide Feed, Step;
    var header := Header(|payload|);
    FeedLength(crc16, s, header);
    var s1 := Feed(crc16, s, header).receiver;
    var crc := crc16(payload);
    FeedBody(crc16, s1, payload, High(crc), Low(crc), []);
    var body := payload + [High(crc), Low(crc)] + [] + [PACKET_END];
    assert Encode(crc16, payload) == header + body;
    FeedConcat(crc16, s, header, body);
    assert payload[..|payload|] == payload;
  }

  /** A frame with the filler that may precede it. */
  datatype Piece = Piece(junk: Bytes, payload: Bytes)

  ghost predicate Sendable(pieces: seq<Piece>) {
    forall i :: 0 <= i < |pieces| ==>
      && 1 <= |pieces[i].payload| <= 506
      && forall j :: 0 <= j < |pieces[i].junk| ==> !IsStart(pieces[i].junk[j])
  }

  function Stream(crc16: Checksum, pieces: seq<Piece>): Bytes
    requires forall i :: 0 <= i < |pieces| ==> |pieces[i].payload| < 0x1_0000
    decreases |pieces|
  {
    if pieces == [] then []
    else pieces[0].junk + Encode(crc16, pieces[0].payload) + Stream(crc16, pieces[1..])
  }

  function Payloads(pieces: seq<Piece>): seq<Bytes>
    decreases |pieces|
  {
    if pieces == [] then [] else [pieces[0].payload] + Payloads(pieces[1..])
  }

  /** Stream round trip: for any checksum function and any payloads of 1 to 506 bytes, the
      concatenated frames, with filler in between, are dispatched as exactly those payloads, in
      order, and the receiver is back at START. */
  lemma {:induction false} StreamRoundTrip(crc16: Checksum, s: Receiver, pieces: seq<Piece>)
    requires s.state == START && Sendable(pieces)
    ensures var fed := Feed(crc16, s, Stream(crc16, pieces));
            fed.receiver.state == START && fed.dispatched == Payloads(pieces)
    decreases |pieces|
  {
    hide Feed, Step, Encode;
    if pieces == [] {
      FeedNothing(crc16, s);
    } else {
      var frame := Encode(crc16, pieces[0].payload);
      var rest := Stream(crc16, pieces[1..]);
      FeedJunk(crc16, s, pieces[0].junk);
      FrameRoundTrip(crc16, s, pieces[0].payload);
      StreamRoundTrip(crc16, Feed(crc16, s, frame).receiver, pieces[1..]);
      FeedConcat(crc16, s, pieces[0].junk, frame);
      FeedConcat(crc16, s, pieces[0].junk + frame, rest);
    }
  }

  lemma FeedNothing(crc16: Checksum, s: Receiver)
    ensures Feed(crc16, s, []) == Fed(s, [])
  {
  }

  /** An empty payload is the one the sender can frame and the receiver does not recognise: the
      frame is dispatched exactly when it carries at least one byte. */
  lemma EmptyPayloadIsLost(crc16: Checksum, s: Receiver, payload: Bytes)
    requires s.state == START && |payload| <= 506
    ensures Feed(crc16, s, Encode(crc16, payload)).dispatched == [payload] <==> |payload| >= 1
  {
    if payload == [] {
      var crc := crc16([]);
      var header := Header(0);
      FeedLength(crc16, s, header);
      var s1 := Feed(crc16, s, header).receiver;
      FeedData(crc16, s1, [High(crc)]);
      var s2 := Feed(crc16, s1, [High(crc)]).receiver;
      FeedChecksum(crc16, s2, Low(crc), PACKET_END);
      FeedConcat(crc16, s, header, [High(crc)]);
      FeedConcat(crc16, s, header + [High(crc)], [Low(crc), PACKET_END]);
      assert Encode(crc16, payload) == header + [High(crc)] + [Low(crc), PACKET_END];
    } else {
      FrameRoundTrip(crc16, s, payload);
    }
  }

  // ---- Exactness ----

  /** Parser exactness: over any stream whose declared lengths are at most 2048, what the
      byte-at-a-time receiver dispatches is what the grammar says. */
  lemma {:induction false} FollowsGrammar(crc16: Checksum, s: Receiver, bytes: Bytes)
    requires s.state == START && Tame(bytes)
    ensures Feed(crc16, s, bytes).dispatched == Parse(crc16, bytes)
    decreases |bytes|
  {
    if bytes == [] {
    } else if bytes[0] == PACKET_START && |bytes| >= 2 {
      FollowsFrame(crc16, s, bytes, 2, bytes[1]);
    } else if bytes[0] == PACKET_LONG_START && |bytes| >= 3 {
      FollowsFrame(crc16, s, bytes, 3, Pair(bytes[1], bytes[2]));
    } else if IsStart(bytes[0]) {
      Truncated(crc16, s, bytes);
    } else {
      FollowsGrammar(crc16, s, bytes[1..]);
    }
  }

  lemma Truncated(crc16: Checksum, s: Receiver, bytes: Bytes)
    requires s.state == START && bytes != []
    requires |bytes| == 1 || (|bytes| == 2 && bytes[0] == PACKET_LONG_START)
    ensures Feed(crc16, s, bytes).dispatched == []
  {
    FeedOne(crc16, s, bytes[0]);
    if |bytes| == 1 {
      assert bytes == [bytes[0]];
    } else {
      assert bytes == [bytes[0]] + [bytes[1]];
      FeedConcat(crc16, s, [bytes[0]], [bytes[1]]);
      FeedOne(crc16, Step(crc16, s, bytes[0]).receiver, bytes[1]);
    }
  }

  lemma FollowsFrame(crc16: Checksum, s: Receiver, bytes: Bytes, h: nat, len: Half)
    requires s.state == START && 2 <= h <= 3 && h <= |bytes|
    requires bytes[0] == (if h == 2 then PACKET_START else PACKET_LONG_START)
    requires len == (if h == 2 then bytes[1] else Pair(bytes[1], bytes[2]))
    requires TameBody(len, bytes[h..])
    ensures Feed(crc16, s, bytes).dispatched == ParseBody(crc16, len, bytes[h..])
    decreases |bytes|, 0
  {
    var body := bytes[h..];
    var n := Stored(len);
    FeedLength(crc16, s, bytes[..h]);
    FeedConcat(crc16, s, bytes[..h], body);
    assert bytes == bytes[..h] + body;
    var s1 := Feed(crc16, s, bytes[..h]).receiver;
    if |body| < n + 2 {
      ShortBody(crc16, s1, body);
    } else {
      FollowsBody(crc16, s1, body);
    }
  }

  lemma FollowsBody(crc16: Checksum, s: Receiver, body: Bytes)
    requires s.state == DATA && s.index == 0 && TameBody(s.length, body) && |body| >= Stored(s.length) + 2
    ensures Feed(crc16, s, body).dispatched == ParseBody(crc16, s.length, body)
    decreases |body|, 1
  {
    hide Feed, Step, Parse, Tame;
    var n := Stored(s.length);
    var nl := Newline(body, n + 2);
    var data, hi, lo, tail := body[..n], body[n], body[n + 1], body[n + 2..nl];
    SplitFour(body, n, nl);
    if nl == |body| {
      assert body[..nl] == body;
      Unfinished(crc16, s, data, hi, lo, tail);
    } else {
      var frame, rest := body[..nl] + [PACKET_END], body[nl + 1..];
      SplitAt(body, nl);
      FeedBody(crc16, s, data, hi, lo, tail);
      FeedConcat(crc16, s, frame, rest);
      FollowsGrammar(crc16, Feed(crc16, s, frame).receiver, rest);
      assert data[..s.length] == body[..s.length];
    }
  }

  lemma SplitFour(s: Bytes, n: nat, m: nat)
    requires n + 2 <= m <= |s|
    ensures s[..m] == s[..n] + [s[n], s[n + 1]] + s[n + 2..m]
  {
    assert s[n..n + 2] == [s[n], s[n + 1]];
    assert s[..m] == s[..n] + s[n..n + 2] + s[n + 2..m];
  }

  lemma SplitAt(s: Bytes, i: nat)
    requires i < |s|
    ensures s == s[..i] + [s[i]] + s[i + 1..]
  {
  }

  /** The stream ends inside the data or the checksum. */
  lemma ShortBody(crc16: Checksum, s: Receiver, body: Bytes)
    requires s.state == DATA && s.index == 0 && s.length <= BUFFER_SIZE && |body| < Stored(s.length) + 2
    ensures Feed(crc16, s, body).dispatched == []
  {
    var n := Stored(s.length);
    if |body| <= n {
      FeedData(crc16, s, body);
    } else {
      FeedData(crc16, s, body[..n]);
      assert body == body[..n] + [body[n]];
      FeedConcat(crc16, s, body[..n], [body[n]]);
      FeedOne(crc16, Feed(crc16, s, body[..n]).receiver, body[n]);
    }
  }

  /** The stream ends while the receiver waits for the newline. */
  lemma Unfinished(crc16: Checksum, s: Receiver, data: Bytes, hi: Byte, lo: Byte, tail: Bytes)
    requires s.state == DATA && s.index == 0 && s.length <= BUFFER_SIZE && |data| == Stored(s.length)
    requires forall i :: 0 <= i < |tail| ==> tail[i] != PACKET_END
    ensures Feed(crc16, s, data + [hi, lo] + tail).dispatched == []
  {
    FeedData(crc16, s, data);
    var s1 := Feed(crc16, s, data).receiver;
    FeedChecksum(crc16, s1, hi, lo);
    FeedWait(crc16, Feed(crc16, s1, [hi, lo]).receiver, tail);
    FeedConcat(crc16, s, data, [hi, lo]);
    FeedConcat(crc16, s, data + [hi, lo], tail);
  }

  // ---- The buffer ----

  /** The next data byte, if the receiver expects one, has a place in the buffer. */
  predicate InBuffer(s: Receiver) {
    s.state == DATA ==> s.index < BUFFER_SIZE
  }

  predicate Bounded(s: Receiver) {
    && (s.state == LENGTH_HIGH || s.state == LENGTH_LOW ==> s.index == 0)
    && (s.state == DATA ==> s.index < Stored(s.length))
    && (s.state != START && s.state != LENGTH_HIGH && s.state != LENGTH_LOW ==> s.length <= BUFFER_SIZE)
  }

  /** Processing this byte neither writes nor reads past the end of the buffer. */
  predicate InMemory(s: Receiver, byte: Byte) {
    InBuffer(s) && (s.state == END && byte == PACKET_END ==> s.length <= BUFFER_SIZE)
  }

  /** This byte does not complete a declared length above 2048. */
  predicate Modest(s: Receiver, byte: Byte) {
    s.state == LENGTH_LOW ==> WithLow(s.length, byte) <= BUFFER_SIZE
  }

  function StateAfter(crc16: Checksum, s: Receiver, bytes: Bytes, k: nat): Receiver
    requires k <= |bytes|
  {
    Feed(crc16, s, bytes[..k]).receiver
  }

  lemma AfterOneMore(crc16: Checksum, s: Receiver, bytes: Bytes, k: nat)
    requires k < |bytes|
    ensures StateAfter(crc16, s, bytes, k + 1) == Step(crc16, StateAfter(crc16, s, bytes, k), bytes[k]).receiver
  {
    assert bytes[..k + 1] == bytes[..k] + [bytes[k]];
    FeedConcat(crc16, s, bytes[..k], [bytes[k]]);
    FeedOne(crc16, StateAfter(crc16, s, bytes, k), bytes[k]);
  }

  /** As long as no declared length exceeds 2048, the write index never leaves the buffer. */
  lemma {:induction false} IndexInBuffer(crc16: Checksum, s: Receiver, bytes: Bytes, k: nat)
    requires Bounded(s) && k <= |bytes|
    requires forall i :: 0 <= i < |bytes| ==> Modest(StateAfter(crc16, s, bytes, i), bytes[i])
    ensures Bounded(StateAfter(crc16, s, bytes, k)) && InBuffer(StateAfter(crc16, s, bytes, k))
    ensures forall byte :: InMemory(StateAfter(crc16, s, bytes, k), byte)
  {
    if k == 0 {
      assert bytes[..0] == [];
    } else {
      IndexInBuffer(crc16, s, bytes, k - 1);
      AfterOneMore(crc16, s, bytes, k - 1);
      assert Modest(StateAfter(crc16, s, bytes, k - 1), bytes[k - 1]);
    }
  }

  /** The length check does not reject: whatever length a frame declares, the receiver goes on
      to DATA, and after 2048 data bytes the next one has no place in the buffer exactly when
      that length is above 2048. */
  lemma {:induction false} OverrunIff(crc16: Checksum, s: Receiver, low: Byte, data: Bytes)
    requires s.state == LENGTH_LOW && s.index == 0 && |data| == 2048
    ensures Step(crc16, s, low).receiver.state == DATA
    ensures (exists k :: 0 <= k <= 2048 && !InBuffer(StateAfter(crc16, Step(crc16, s, low).receiver, data, k)))
            <==> WithLow(s.length, low) > 2048
  {
    var s1 := Step(crc16, s, low).receiver;
    if s1.length > BUFFER_SIZE {
      CountsUp(crc16, s1, data, BUFFER_SIZE);
    } else {
      forall k | 0 <= k <= BUFFER_SIZE ensures InBuffer(StateAfter(crc16, s1, data, k)) {
        ShortFrameStays(crc16, s1, data, k);
      }
    }
  }

  lemma {:induction false} CountsUp(crc16: Checksum, s: Receiver, data: Bytes, k: nat)
    requires s.state == DATA && s.index == 0 && s.length > BUFFER_SIZE && k <= |data| == BUFFER_SIZE
    ensures var r := StateAfter(crc16, s, data, k); r.state == DATA && r.index == k && r.length == s.length
  {
    if k == 0 {
      assert data[..0] == [];
    } else {
      CountsUp(crc16, s, data, k - 1);
      AfterOneMore(crc16, s, data, k - 1);
    }
  }

  /** Within 2048 bytes of a frame that declares at most 2048, no other frame's data gets past
      the bytes that are there. */
  lemma {:induction false} ShortFrameStays(crc16: Checksum, s: Receiver, data: Bytes, k: nat)
    requires s.state == DATA && s.index == 0 && s.length <= BUFFER_SIZE && k <= |data| == BUFFER_SIZE
    ensures var r := StateAfter(crc16, s, data, k);
            r.index <= k && (r.state == DATA ==> r.index < BUFFER_SIZE)
  {
    if k == 0 {
      assert data[..0] == [];
    } else {
      ShortFrameStays(crc16, s, data, k - 1);
      AfterOneMore(crc16, s, data, k - 1);
      if k == BUFFER_SIZE {
        LastByte(crc16, s, data);
      }
    }
  }

  lemma LastByte(crc16: Checksum, s: Receiver, data: Bytes)
    requires s.state == DATA && s.index == 0 && s.length <= BUFFER_SIZE && |data| == BUFFER_SIZE
    ensures var r := StateAfter(crc16, s, data, BUFFER_SIZE); r.state == DATA ==> r.index < BUFFER_SIZE
  {
    var n := Stored(s.length);
    FeedData(crc16, s, data[..n]);
    LeftFrame(crc16, s, data, n, BUFFER_SIZE);
  }

  /** Once the data of the first frame is in, the index has restarted or the frame is over. */
  lemma {:induction false} LeftFrame(crc16: Checksum, s: Receiver, data: Bytes, n: nat, k: nat)
    requires n <= k <= |data| == BUFFER_SIZE && n >= 1
    requires StateAfter(crc16, s, data, n).state == CRC_HIGH
    ensures var r := StateAfter(crc16, s, data, k);
            r.state == DATA || r.state == LENGTH_LOW || r.state == LENGTH_HIGH ==> r.index < k
  {
    if k > n {
      LeftFrame(crc16, s, data, n, k - 1);
      AfterOneMore(crc16, s, data, k - 1);
    }
  }
}
