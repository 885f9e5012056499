/** The receiver and the clock: which silences reset it, and which frames survive their pauses. */
module PacketTiming {
  import opened Common
  import opened PacketSpec
  import opened PacketProofs

  datatype Event = Received(byte: Byte) | Millisecond

  function FeedEvents(crc16: Checksum, s: Receiver, events: seq<Event>): Fed
    decreases |events|
  {
    if events == [] then Fed(s, [])
    else
      var first := match events[0] case Received(b) => Step(crc16, s, b) case Millisecond => Fed(Tick(s), []);
      var rest := FeedEvents(crc16, first.receiver, events[1..]);
      Fed(rest.receiver, first.dispatched + rest.dispatched)
  }

  function BytesOf(events: seq<Event>): Bytes
    decreases |events|
  {
    if events == [] then []
    else (match events[0] case Received(b) => [b] case Millisecond => []) + BytesOf(events[1..])
  }

  /** No tick finds an exhausted timeout in the middle of a frame. */
  predicate InTime(crc16: Checksum, s: Receiver, events: seq<Event>)
    decreases |events|
  {
    if events == [] then true
    else match events[0]
      case Received(b) => InTime(crc16, Step(crc16, s, b).receiver, events[1..])
      case Millisecond => (s.timeout > 0 || s.state == START) && InTime(crc16, Tick(s), events[1..])
  }

  predicate SameButTimeout(a: Receiver, b: Receiver) {
    a == b.(timeout := a.timeout)
  }

  /** Ticks that come in time are invisible: the same payloads are dispatched as without them. */
  lemma {:induction false} TimelyTicksAreInvisible(crc16: Checksum, s: Receiver, t: Receiver, events: seq<Event>)
    requires InTime(crc16, s, events) && SameButTimeout(s, t)
    ensures FeedEvents(crc16, s, events).dispatched == Feed(crc16, t, BytesOf(events)).dispatched
    ensures SameButTimeout(FeedEvents(crc16, s, events).receiver, Feed(crc16, t, BytesOf(events)).receiver)
    decreases |events|
  {
    if events != [] {
      match events[0] {
        case Received(b) =>
          assert BytesOf(events) == [b] + BytesOf(events[1..]);
          assert BytesOf(events)[1..] == BytesOf(events[1..]);
          TimelyTicksAreInvisible(crc16, Step(crc16, s, b).receiver, Step(crc16, t, b).receiver, events[1..]);
        case Millisecond =>
          assert BytesOf(events) == BytesOf(events[1..]);
          TimelyTicksAreInvisible(crc16, Tick(s), t, events[1..]);
      }
    }
  }

  function Ticks(s: Receiver, n: nat): Receiver
    decreases n
  {
    if n == 0 then s else Ticks(Tick(s), n - 1)
  }

  /** A silent line resets a receiver after exactly its timeout plus one ticks, and not before. */
  lemma {:induction false} SilenceResets(s: Receiver, n: nat)
    ensures if n <= s.timeout then Ticks(s, n) == s.(timeout := s.timeout - n)
            else Ticks(s, n) == s.(timeout := 0, state := START)
    decreases n
  {
    if n > 0 {
      SilenceResets(Tick(s), n - 1);
    }
  }

  /** Every byte that belongs to a frame starts the timeout of 1000 ticks anew; bytes between frames, and
      those between checksum and newline, do not. */
  lemma TimeoutRenewed(crc16: Checksum, s: Receiver, b: Byte)
    ensures Step(crc16, s, b).receiver.timeout ==
            if (s.state == START && b != 80 && b != 81) || (s.state == END && b != 10) then s.timeout else 1000
  {
  }

  /** So a byte of a frame that is followed by silence is waited for 1000 ticks, and no longer. */
  lemma SilenceAfterByte(crc16: Checksum, s: Receiver, b: Byte, n: nat)
    requires s.state != START && s.state != END
    ensures var s' := Step(crc16, s, b).receiver;
            Ticks(s', n).state == if n <= 1000 then s'.state else START
  {
    TimeoutRenewed(crc16, s, b);
    SilenceResets(Step(crc16, s, b).receiver, n);
  }

  // ---- A frame with pauses ----

  function Pause(n: nat): seq<Event> {
    seq(n, _ => Millisecond)
  }

  /** Each byte, followed by so many ticks. */
  function Spaced(bytes: Bytes, gaps: seq<nat>): seq<Event>
    requires |gaps| == |bytes|
    decreases |bytes|
  {
    if bytes == [] then [] else [Received(bytes[0])] + Pause(gaps[0]) + Spaced(bytes[1..], gaps[1..])
  }

  /** No byte comes between checksum and newline. */
  predicate NoFiller(crc16: Checksum, s: Receiver, bytes: Bytes)
    decreases |bytes|
  {
    bytes == [] ||
    ((s.state == END ==> bytes[0] == PACKET_END) && NoFiller(crc16, Step(crc16, s, bytes[0]).receiver, bytes[1..]))
  }

  lemma {:induction false} NoFillerConcat(crc16: Checksum, s: Receiver, a: Bytes, b: Bytes)
    requires NoFiller(crc16, s, a) && NoFiller(crc16, Feed(crc16, s, a).receiver, b)
    ensures NoFiller(crc16, s, a + b)
    decreases |a|
  {
    hide Step;
    if a == [] {
      assert a + b == b;
    } else {
      assert (a + b)[1..] == a[1..] + b;
      NoFillerConcat(crc16, Step(crc16, s, a[0]).receiver, a[1..], b);
    }
  }

  lemma {:induction false} NoFillerData(crc16: Checksum, s: Receiver, data: Bytes)
    requires s.state == DATA && s.length <= BUFFER_SIZE && s.index < Stored(s.length)
    requires s.index + |data| <= Stored(s.length)
    ensures NoFiller(crc16, s, data)
    decreases |data|
  {
    hide Step;
    if data != [] {
      DataStep(crc16, s, data[0]);
      if |data| == 1 {
        assert NoFiller(crc16, Step(crc16, s, data[0]).receiver, data[1..]);
      } else {
        NoFillerData(crc16, Step(crc16, s, data[0]).receiver, data[1..]);
      }
    }
  }

  lemma NoFillerOne(crc16: Checksum, s: Receiver, b: Byte)
    requires s.state == END ==> b == PACKET_END
    ensures NoFiller(crc16, s, [b])
  {
    hide Step;
    assert [b][1..] == [];
    assert NoFiller(crc16, Step(crc16, s, b).receiver, []);
  }

  lemma NoFillerHeader(crc16: Checksum, s: Receiver, header: Bytes)
    requires s.state == START && |header| >= 2
    requires header[0] == PACKET_START ==> |header| == 2
    requires header[0] != PACKET_START ==> header[0] == PACKET_LONG_START && |header| == 3
    ensures NoFiller(crc16, s, header)
  {
    var s1 := Step(crc16, s, header[0]).receiver;
    var s2 := Step(crc16, s1, header[1]).receiver;
    if |header| == 2 {
      NoFillerOne(crc16, s1, header[1]);
      assert header[1..] == [header[1]];
    } else {
      NoFillerOne(crc16, s2, header[2]);
      assert header[1..][1..] == [header[2]];
      assert header[1..][0] == header[1];
      assert NoFiller(crc16, s1, header[1..]);
    }
  }

  lemma NoFillerTail(crc16: Checksum, s: Receiver, hi: Byte, lo: Byte)
    requires s.state == CRC_HIGH
    ensures NoFiller(crc16, s, [hi, lo] + [PACKET_END])
  {
    NoFillerOne(crc16, s, hi);
    NoFillerOne(crc16, Step(crc16, s, hi).receiver, lo);
    FeedOne(crc16, s, hi);
    NoFillerConcat(crc16, s, [hi], [lo]);
    assert [hi] + [lo] == [hi, lo];
    FeedChecksum(crc16, s, hi, lo);
    NoFillerOne(crc16, Feed(crc16, s, [hi, lo]).receiver, PACKET_END);
    NoFillerConcat(crc16, s, [hi, lo], [PACKET_END]);
  }

  lemma NoFillerFrame(crc16: Checksum, s: Receiver, payload: Bytes)
    requires s.state == START && 1 <= |payload| <= BUFFER_SIZE
    ensures NoFiller(crc16, s, Encode(crc16, payload))
  {
    hide NoFiller, Feed, Step;
    var header, crc := Header(|payload|), crc16(payload);
    FeedLength(crc16, s, header);
    NoFillerHeader(crc16, s, header);
    var s1 := Feed(crc16, s, header).receiver;
    FeedData(crc16, s1, payload);
    NoFillerData(crc16, s1, payload);
    var tail := [High(crc), Low(crc)] + [PACKET_END];
    NoFillerTail(crc16, Feed(crc16, s1, payload).receiver, High(crc), Low(crc));
    NoFillerConcat(crc16, s1, payload, tail);
    NoFillerConcat(crc16, s, header, payload + tail);
    assert Encode(crc16, payload) == header + (payload + tail);
  }

  lemma {:induction false} PauseInTime(crc16: Checksum, s: Receiver, n: nat, events: seq<Event>)
    requires (n <= s.timeout || s.state == START) && InTime(crc16, Ticks(s, n), events)
    ensures InTime(crc16, s, Pause(n) + events)
    decreases n
  {
    if n == 0 {
      assert Pause(0) + events == events;
    } else {
      assert (Pause(n) + events)[1..] == Pause(n - 1) + events;
      PauseInTime(crc16, Tick(s), n - 1, events);
    }
  }

  /** With pauses of at most 1000 ticks, and no filler, no tick resets the receiver. s is as t, but for
      the time that has passed. */
  lemma {:induction false} SpacedInTime(crc16: Checksum, s: Receiver, t: Receiver, bytes: Bytes, gaps: seq<nat>)
    requires |gaps| == |bytes| && (forall i :: 0 <= i < |gaps| ==> gaps[i] <= 1000)
    requires SameButTimeout(s, t) && NoFiller(crc16, t, bytes)
    ensures InTime(crc16, s, Spaced(bytes, gaps))
    decreases |bytes|
  {
    hide Step, Pause;
    if bytes != [] {
      var s', t' := Step(crc16, s, bytes[0]).receiver, Step(crc16, t, bytes[0]).receiver;
      StepButTimeout(crc16, s, t, bytes[0]);
      SilenceResets(s', gaps[0]);
      var rest := Spaced(bytes[1..], gaps[1..]);
      SpacedInTime(crc16, Ticks(s', gaps[0]), t', bytes[1..], gaps[1..]);
      PauseInTime(crc16, s', gaps[0], rest);
      assert Spaced(bytes, gaps) == [Received(bytes[0])] + (Pause(gaps[0]) + rest);
      assert Spaced(bytes, gaps)[1..] == Pause(gaps[0]) + rest;
    }
  }

  lemma StepButTimeout(crc16: Checksum, s: Receiver, t: Receiver, b: Byte)
    requires SameButTimeout(s, t) && (t.state == END ==> b == PACKET_END)
    ensures var s' := Step(crc16, s, b).receiver;
            SameButTimeout(s', Step(crc16, t, b).receiver) && (s'.timeout == 1000 || s'.state == START)
  {
  }

  lemma {:induction false} BytesOfSpaced(bytes: Bytes, gaps: seq<nat>)
    requires |gaps| == |bytes|
    ensures BytesOf(Spaced(bytes, gaps)) == bytes
    decreases |bytes|
  {
    hide Pause;
    if bytes != [] {
      var rest := Pause(gaps[0]) + Spaced(bytes[1..], gaps[1..]);
      assert Spaced(bytes, gaps) == [Received(bytes[0])] + rest;
      assert Spaced(bytes, gaps)[1..] == rest;
      BytesOfPause(gaps[0], Spaced(bytes[1..], gaps[1..]));
      BytesOfSpaced(bytes[1..], gaps[1..]);
    }
  }

  lemma {:induction false} BytesOfPause(n: nat, events: seq<Event>)
    ensures BytesOf(Pause(n) + events) == BytesOf(events)
    decreases n
  {
    if n == 0 {
      assert Pause(0) + events == events;
    } else {
      assert (Pause(n) + events)[1..] == Pause(n - 1) + events;
      BytesOfPause(n - 1, events);
    }
  }

  /** A frame whose bytes are each followed by at most 1000 ticks is dispatched all the same. */
  lemma FrameSurvivesPauses(crc16: Checksum, s: Receiver, payload: Bytes, gaps: seq<nat>)
    requires s.state == START && 1 <= |payload| <= 2048 && |gaps| == |Encode(crc16, payload)|
    requires forall i :: 0 <= i < |gaps| ==> gaps[i] <= 1000
    ensures var fed := FeedEvents(crc16, s, Spaced(Encode(crc16, payload), gaps));
            fed.dispatched == [payload] && fed.receiver.state == START
  {
    hide FeedEvents, Feed, Step, Encode, Spaced, InTime, NoFiller;
    var frame := Encode(crc16, payload);
    NoFillerFrame(crc16, s, payload);
    SpacedInTime(crc16, s, s, frame, gaps);
    TimelyTicksAreInvisible(crc16, s, s, Spaced(frame, gaps));
    BytesOfSpaced(frame, gaps);
    FrameRoundTrip(crc16, s, payload);
  }
}
