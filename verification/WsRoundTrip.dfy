/** What one end sends is what the other end delivers. */
module WebSocketRoundTrip {
  import opened Sequences
  import opened Numbers
  import opened Utf8
  import opened WebSocketFrame
  import opened WebSocketSocket
  import opened WebSocketReceiver
  import Sender = WebSocketSender

  /** A frame that dispatch consumes whatever the state: control frames are whole and pings short. */
  predicate Acceptable(f: Frame): (b: bool)
    ensures b ==> f.opcode < 16
  {
    && f.opcode < 16
    && |f.payload| <= 0x8000_0000_0000_0000
    && (IsControl(f.opcode) ==> f.fin)
    && (f.opcode == PING ==> |f.payload| <= 125)
  }

  ghost predicate AllAcceptable(frames: seq<Frame>) {
    forall f | f in frames :: Acceptable(f)
  }

  /** The effect of a sequence of frames on the assembly, and the events. */
  ghost function OnFrames(a: Assembly, frames: seq<Frame>, pong: bool): (Assembly, seq<Event>)
    decreases |frames|
  {
    if frames == [] then (a, [])
    else
      var f := frames[0];
      var (b, head) := OnFrame(a, f.fin, f.opcode, f.payload, pong);
      var (c, tail) := OnFrames(b, frames[1..], pong);
      (c, head + tail)
  }

  /** One encoded frame is one turn of the dispatch loop. */
  lemma FrameTurn(f: Frame, a: Assembly, wanted: nat, rest: Bytes, pong: bool)
    requires Acceptable(f)
    ensures var (b, events) := OnFrame(a, f.fin, f.opcode, f.payload, pong);
            OneTurn(Rx(EncodeFrame(f) + rest, wanted, a), pong) == Turn(Rx(rest, 0, b), events, Continue)
  {
    hide OnFrame, Payload, PayloadLength, MaskingKey, HeaderSize, Fin, Opcode, Reserved, EncodeFrame, Header;
    var rx := Rx(EncodeFrame(f), wanted, a);
    ReadsBack(f);
    assert EncodeFrame(f)[|EncodeFrame(f)|..] == [];
    StepAppend(rx, rest, pong);
    assert [] + rest == rest;
  }

  lemma HeaderIncomplete(a: Assembly, pong: bool)
    ensures AllTurns(Rx([], 0, a), pong) == Turn(Rx([], 0, a), [], NoHeader)
  {
  }

  /** Dispatching a stream of encoded frames consumes all of it, frame by frame. */
  lemma {:induction false} FramesTurns(frames: seq<Frame>, a: Assembly, pong: bool)
    requires AllAcceptable(frames)
    ensures var (b, events) := OnFrames(a, frames, pong);
            AllTurns(Rx(EncodeFrames(frames), 0, a), pong) == Turn(Rx([], 0, b), events, NoHeader)
    decreases |frames|
  {
    hide OneTurn, OnFrame, EncodeFrame, Acceptable;
    if frames == [] {
      HeaderIncomplete(a, pong);
    } else {
      var f := frames[0];
      assert forall g | g in frames[1..] :: g in frames;
      FrameTurn(f, a, 0, EncodeFrames(frames[1..]), pong);
      RunStep(Rx(EncodeFrames(frames), 0, a), pong);
      FramesTurns(frames[1..], OnFrame(a, f.fin, f.opcode, f.payload, pong).0, pong);
    }
  }

  /** A frame that a sender can encode: its length fits 64 bits. */
  predicate Encodable(f: Frame): (b: bool)
    ensures b ==> f.opcode < 16
  {
    f.opcode < 16 && |f.payload| < 0x1_0000_0000_0000_0000
  }

  ghost predicate AllEncodable(frames: seq<Frame>) {
    forall f | f in frames :: Encodable(f)
  }

  /** Any other frame makes dispatch return with the frame kept. */
  lemma FrameStops(f: Frame, a: Assembly, rest: Bytes, pong: bool)
    requires Encodable(f) && !Acceptable(f)
    ensures OneTurn(Rx(EncodeFrame(f) + rest, 0, a), pong).flow == Stopped
  {
    hide OnFrame, Payload, PayloadLength, MaskingKey, HeaderSize, Fin, Opcode, Reserved, EncodeFrame, Header, Unmasked;
    ReadsBack(f);
    StepAppend(Rx(EncodeFrame(f), 0, a), rest, pong);
  }

  /** Exactly the frames that are not acceptable stop the receiver. */
  lemma {:induction false} StopsExactly(frames: seq<Frame>, a: Assembly, pong: bool)
    requires AllEncodable(frames)
    ensures AllTurns(Rx(EncodeFrames(frames), 0, a), pong).flow == Stopped <==> !AllAcceptable(frames)
    decreases |frames|
  {
    hide OneTurn, AllTurns, OnFrame, EncodeFrame, EncodeFrames, OnFrames, Acceptable, Encodable;
    if AllAcceptable(frames) {
      FramesTurns(frames, a, pong);
    } else {
      var f, rest := frames[0], frames[1..];
      EncodeFramesCons(frames);
      RunStep(Rx(EncodeFrames(frames), 0, a), pong);
      if Acceptable(f) {
        FrameTurn(f, a, 0, EncodeFrames(rest), pong);
        StopsExactly(rest, OnFrame(a, f.fin, f.opcode, f.payload, pong).0, pong);
        assert frames == [f] + rest;
      } else {
        FrameStops(f, a, EncodeFrames(rest), pong);
      }
    }
  }

  lemma EncodeFramesCons(frames: seq<Frame>)
    requires frames != [] && AllEncodable(frames)
    ensures AllEncodable(frames[1..]) && frames[0] in frames
    ensures EncodeFrames(frames) == EncodeFrame(frames[0]) + EncodeFrames(frames[1..])
  {
    hide EncodeFrame;
  }

  // ----- Putting fragments together.

  function DataFrames(frames: seq<Frame>): seq<Frame>
    decreases |frames|
  {
    if frames == [] then []
    else (if IsData(frames[0].opcode) then [frames[0]] else []) + DataFrames(frames[1..])
  }

  function Payloads(frames: seq<Frame>): (p: seq<Bytes>)
    ensures |p| == |frames|
  {
    seq(|frames|, i requires 0 <= i < |frames| => frames[i].payload)
  }

  /** A message of the given kind, cut into one frame or more (section 5.4 of RFC 6455). */
  ghost predicate Fragmentation(data: seq<Frame>, opcode: nat, message: Bytes) {
    && data != []
    && (forall i | 0 <= i < |data| :: data[i].opcode == if i == 0 then opcode else CONTINUATION)
    && (forall i | 0 <= i < |data| :: data[i].fin <==> i == |data| - 1)
    && Concat(Payloads(data)) == message
  }

  /** The later frames of a message. */
  ghost predicate Continuations(data: seq<Frame>) {
    && data != []
    && (forall i | 0 <= i < |data| :: data[i].opcode == CONTINUATION)
    && (forall i | 0 <= i < |data| :: data[i].fin <==> i == |data| - 1)
  }

  /** Only pings and pongs come between the fragments. */
  ghost predicate PingsBetween(frames: seq<Frame>) {
    forall f | f in frames :: IsData(f.opcode) || f.opcode == PING || f.opcode == PONG
  }

  predicate IsOutcome(e: Event) {
    e.Message? || e.Close?
  }

  predicate IsHeartbeat(e: Event) {
    e.Ping? || e.Pong? || e.SendPong?
  }

  function Only(p: Event -> bool, events: seq<Event>): seq<Event>
    decreases |events|
  {
    if events == [] then [] else (if p(events[0]) then [events[0]] else []) + Only(p, events[1..])
  }

  /** Messages delivered, and reasons given for closing. */
  function Outcomes(events: seq<Event>): seq<Event> {
    Only(IsOutcome, events)
  }

  /** Pings and pongs delivered, and pongs sent back. */
  function Heartbeats(events: seq<Event>): seq<Event> {
    Only(IsHeartbeat, events)
  }

  /** The heartbeats that the control frames of a stream call for. */
  function Replies(frames: seq<Frame>, pong: bool): seq<Event>
    decreases |frames|
  {
    if frames == [] then []
    else
      var f := frames[0];
      (if f.opcode == PING then (if pong then [SendPong(f.payload)] else []) + [Ping(f.payload)]
       else if f.opcode == PONG then [Pong(f.payload)] else []) + Replies(frames[1..], pong)
  }

  lemma {:induction false} OnlyConcat(p: Event -> bool, a: seq<Event>, b: seq<Event>)
    ensures Only(p, a + b) == Only(p, a) + Only(p, b)
    decreases |a|
  {
    hide Only;
    OnlyNone(p);
    if a == [] {
      assert a + b == b;
      assert [] + Only(p, b) == Only(p, b);
    } else {
      OnlyConcat(p, a[1..], b);
      OnlyCons(p, a[0], a[1..]);
      OnlyCons(p, a[0], a[1..] + b);
      assert a == [a[0]] + a[1..] && a + b == [a[0]] + (a[1..] + b);
      var head := if p(a[0]) then [a[0]] else [];
      assert head + (Only(p, a[1..]) + Only(p, b)) == head + Only(p, a[1..]) + Only(p, b);
    }
  }

  lemma OnlyNone(p: Event -> bool)
    ensures Only(p, []) == []
  {
  }

  lemma OnlyCons(p: Event -> bool, e: Event, s: seq<Event>)
    ensures Only(p, [e] + s) == (if p(e) then [e] else []) + Only(p, s)
  {
    assert ([e] + s)[1..] == s;
  }

  lemma OnlyOne(p: Event -> bool, e: Event)
    ensures Only(p, [e]) == if p(e) then [e] else []
  {
    assert [e][1..] == [];
  }

  lemma FiltersConcat(a: seq<Event>, b: seq<Event>)
    ensures Outcomes(a + b) == Outcomes(a) + Outcomes(b)
    ensures Heartbeats(a + b) == Heartbeats(a) + Heartbeats(b)
  {
    OnlyConcat(IsOutcome, a, b);
    OnlyConcat(IsHeartbeat, a, b);
  }

  lemma FiltersOne(e: Event)
    ensures Outcomes([e]) == if IsOutcome(e) then [e] else []
    ensures Heartbeats([e]) == if IsHeartbeat(e) then [e] else []
  {
    OnlyOne(IsOutcome, e);
    OnlyOne(IsHeartbeat, e);
  }

  /** One frame between or within messages: control frames answer and change nothing. */
  lemma ControlFrame(a: Assembly, f: Frame, pong: bool)
    requires f.opcode == PING || f.opcode == PONG
    ensures var (b, events) := OnFrame(a, f.fin, f.opcode, f.payload, pong);
            b == a && Outcomes(events) == [] && Heartbeats(events) == Replies([f], pong)
  {
    hide Outcomes, Heartbeats;
    assert [f][1..] == [];
    FiltersOne(Ping(f.payload));
    FiltersOne(Pong(f.payload));
    FiltersOne(SendPong(f.payload));
    FiltersConcat([SendPong(f.payload)], [Ping(f.payload)]);
    assert [] + [Ping(f.payload)] == [Ping(f.payload)];
  }

  lemma EmitFilters(text: bool, data: Bytes)
    ensures Outcomes(Emit(text, data)) == Emit(text, data) && Heartbeats(Emit(text, data)) == []
  {
    hide Outcomes, Heartbeats, WellFormed;
    FiltersOne(Message(text, data));
    FiltersOne(Close(InvalidPayloadData));
  }

  /** A data frame in its place: the chunks grow until the last one delivers them all. */
  lemma DataFrame(a: Assembly, f: Frame, pong: bool)
    requires IsData(f.opcode) && (f.opcode == CONTINUATION <==> a.chunks != [])
    ensures var text := if a.chunks == [] then f.opcode == TEXT_FRAME else a.text;
            var (b, events) := OnFrame(a, f.fin, f.opcode, f.payload, pong);
            && b == Assembly(if f.fin then [] else a.chunks + [f.payload], text)
            && Outcomes(events) == (if f.fin then Emit(text, Concat(a.chunks + [f.payload])) else [])
            && Heartbeats(events) == []
  {
    hide Outcomes, Heartbeats, WellFormed;
    var text := if a.chunks == [] then f.opcode == TEXT_FRAME else a.text;
    FiltersOne(Fragment);
    EmitFilters(text, Concat(a.chunks + [f.payload]));
    if a.chunks == [] {
      assert a.chunks + [f.payload] == [f.payload];
      assert [f.payload][..0] == [] && [] + f.payload == f.payload;
    }
    assert OutOfSequence(a, f.opcode) == [];
    assert forall e: seq<Event> :: [] + e == e;
  }

  /** What is left of a stream: no more data frames, later fragments of a message begun, or a whole message. */
  ghost predicate Expects(a: Assembly, data: seq<Frame>, opcode: nat) {
    if a.chunks != [] then Continuations(data)
    else data == [] || Fragmentation(data, opcode, Concat(Payloads(data)))
  }

  lemma NextData(a: Assembly, data: seq<Frame>, opcode: nat)
    requires (opcode == TEXT_FRAME || opcode == BINARY_FRAME) && data != [] && Expects(a, data, opcode)
    ensures IsData(data[0].opcode) && (data[0].opcode == CONTINUATION <==> a.chunks != [])
    ensures data[0].opcode == CONTINUATION || data[0].opcode == opcode
    ensures data[0].fin ==> data[1..] == []
    ensures !data[0].fin ==> Continuations(data[1..])
  {
    if |data| > 1 {
      forall i | 0 <= i < |data[1..]|
        ensures data[1..][i].opcode == CONTINUATION && (data[1..][i].fin <==> i == |data[1..]| - 1)
      {
        assert data[1..][i] == data[i + 1];
      }
    }
  }

  lemma PayloadsCons(data: seq<Frame>)
    requires data != []
    ensures Payloads(data) == [data[0].payload] + Payloads(data[1..])
  {
  }

  lemma DataFramesCons(frames: seq<Frame>)
    requires frames != []
    ensures DataFrames(frames) == (if IsData(frames[0].opcode) then [frames[0]] else []) + DataFrames(frames[1..])
  {
  }

  lemma RepliesCons(frames: seq<Frame>, pong: bool)
    requires frames != []
    ensures Replies(frames, pong) == Replies([frames[0]], pong) + Replies(frames[1..], pong)
    ensures frames[0].opcode != PING && frames[0].opcode != PONG ==> Replies([frames[0]], pong) == []
  {
    assert [frames[0]][1..] == [];
  }

  /** The message that a stream of frames completes. */
  ghost function Completed(a: Assembly, data: seq<Frame>, opcode: nat): seq<Event> {
    if data == [] then []
    else Emit(if a.chunks == [] then opcode == TEXT_FRAME else a.text, Concat(a.chunks + Payloads(data)))
  }

  lemma {:induction false} Reassembles(a: Assembly, frames: seq<Frame>, opcode: nat, pong: bool)
    requires opcode == TEXT_FRAME || opcode == BINARY_FRAME
    requires PingsBetween(frames) && Expects(a, DataFrames(frames), opcode)
    ensures var (b, events) := OnFrames(a, frames, pong);
            && b.chunks == []
            && Outcomes(events) == Completed(a, DataFrames(frames), opcode)
            && Heartbeats(events) == Replies(frames, pong)
    decreases |frames|
  {
    hide OnFrame, Emit, Outcomes, Heartbeats, Replies, DataFrames, Continuations, Fragmentation, Expects;
    var data := DataFrames(frames);
    NoFrames(a, pong);
    if frames == [] {
      ExpectsNothing(a, opcode);
    } else {
      var f, rest := frames[0], frames[1..];
      var (b, head) := OnFrame(a, f.fin, f.opcode, f.payload, pong);
      var tail := OnFrames(b, rest, pong).1;
      FiltersConcat(head, tail);
      DataFramesCons(frames);
      RepliesCons(frames, pong);
      assert PingsBetween(rest);
      if IsData(f.opcode) {
        assert data == [f] + DataFrames(rest) && data[1..] == DataFrames(rest);
        NextData(a, data, opcode);
        DataFrame(a, f, pong);
        ExpectsNext(a, b, data, opcode);
        Reassembles(b, rest, opcode, pong);
        CompletesNext(a, b, data, opcode);
      } else {
        assert [] + DataFrames(rest) == DataFrames(rest);
        ControlFrame(a, f, pong);
        Reassembles(a, rest, opcode, pong);
        assert [] + Outcomes(tail) == Outcomes(tail);
      }
    }
  }

  lemma NoFrames(a: Assembly, pong: bool)
    ensures OnFrames(a, [], pong) == (a, []) && DataFrames([]) == [] && Replies([], pong) == []
    ensures Outcomes([]) == [] && Heartbeats([]) == []
  {
  }

  lemma ExpectsNothing(a: Assembly, opcode: nat)
    requires Expects(a, [], opcode)
    ensures a.chunks == []
  {
  }

  lemma ExpectsNext(a: Assembly, b: Assembly, data: seq<Frame>, opcode: nat)
    requires data != []
    requires if data[0].fin then data[1..] == [] && b.chunks == [] else Continuations(data[1..]) && b.chunks != []
    ensures Expects(b, data[1..], opcode)
  {
  }

  lemma CompletesNext(a: Assembly, b: Assembly, data: seq<Frame>, opcode: nat)
    requires data != []
    requires var text := if a.chunks == [] then opcode == TEXT_FRAME else a.text;
             b == Assembly(if data[0].fin then [] else a.chunks + [data[0].payload], text)
    requires data[0].fin ==> data[1..] == []
    requires !data[0].fin ==> data[1..] != []
    ensures var text := if a.chunks == [] then opcode == TEXT_FRAME else a.text;
            Completed(a, data, opcode) ==
            (if data[0].fin then Emit(text, Concat(a.chunks + [data[0].payload])) else [])
            + Completed(b, data[1..], opcode)
  {
    hide Emit;
    PayloadsCons(data);
    if data[0].fin {
      assert a.chunks + Payloads(data) == a.chunks + [data[0].payload];
    } else {
      assert a.chunks + Payloads(data) == b.chunks + Payloads(data[1..]);
    }
  }

  /** One delivery, or for a text that is not UTF-8 one refusal. */
  ghost function Verdict(opcode: nat, message: Bytes): seq<Event> {
    if opcode == TEXT_FRAME && !WellFormed(message) then [Close(InvalidPayloadData)]
    else [Message(opcode == TEXT_FRAME, message)]
  }

  /** A fragmented message, however it is cut and whatever pings and pongs come in between, is
      delivered exactly once and unchanged; a text that is not UTF-8 is refused instead. */
  lemma MessageDelivered(frames: seq<Frame>, opcode: nat, message: Bytes, a: Assembly, pong: bool)
    requires opcode == TEXT_FRAME || opcode == BINARY_FRAME
    requires AllAcceptable(frames) && PingsBetween(frames) && a.chunks == []
    requires Fragmentation(DataFrames(frames), opcode, message)
    ensures var t := AllTurns(Rx(EncodeFrames(frames), 0, a), pong);
            && t.rx == Rx([], 0, t.rx.assembly) && t.rx.assembly.chunks == [] && t.flow == NoHeader
            && Heartbeats(t.events) == Replies(frames, pong)
            && Outcomes(t.events) == Verdict(opcode, message)
  {
    hide OnFrames, AllTurns, Acceptable;
    var data := DataFrames(frames);
    FramesTurns(frames, a, pong);
    assert Expects(a, data, opcode);
    Reassembles(a, frames, opcode, pong);
    assert [] + Payloads(data) == Payloads(data);
  }

  // ----- The fragments of sendData.

  lemma {:induction false} MergedFragments(opcode: nat, message: Bytes, useMask: bool, keys: nat -> Key, i: nat)
    requires i <= Sender.FragmentCount(|message|)
    ensures var p := Payloads(Sender.Fragments(opcode, message, useMask, keys));
            Concat(p[..i]) == message[..if i == 0 then 0 else Sender.FragmentEnd(|message|, i - 1)]
  {
    var p := Payloads(Sender.Fragments(opcode, message, useMask, keys));
    if i > 0 {
      MergedFragments(opcode, message, useMask, keys, i - 1);
      assert p[..i][..i - 1] == p[..i - 1];
      var end := Sender.FragmentEnd(|message|, i - 1);
      assert message[..end] == message[..(i - 1) * CHUNK_SIZE] + message[(i - 1) * CHUNK_SIZE..end];
    }
  }

  /** sendData cuts a message as section 5.4 of RFC 6455 asks. */
  lemma SentIsFragmentation(opcode: nat, message: Bytes, useMask: bool, keys: nat -> Key)
    ensures Fragmentation(Sender.Fragments(opcode, message, useMask, keys), opcode, message)
  {
    hide Concat;
    var data := Sender.Fragments(opcode, message, useMask, keys);
    MergedFragments(opcode, message, useMask, keys, |data|);
    assert Payloads(data)[..|data|] == Payloads(data);
    assert message[..|message|] == message;
  }

  predicate DataOrHeartbeat(f: Frame): (b: bool)
    ensures b ==> f.opcode < 16
  {
    IsData(f.opcode) || ((f.opcode == PING || f.opcode == PONG) && f.fin && |f.payload| <= 125)
  }

  ghost predicate AllDataOrHeartbeat(frames: seq<Frame>) {
    forall f | f in frames :: DataOrHeartbeat(f)
  }

  /** Send and receive: all the fragments of one message, with pings and pongs in between, make the
      peer deliver that message once, with the same bytes and kind. */
  lemma RoundTrip(frames: seq<Frame>, opcode: nat, message: Bytes, useMask: bool, keys: nat -> Key, a: Assembly,
                  pong: bool)
    requires opcode == TEXT_FRAME || opcode == BINARY_FRAME
    requires DataFrames(frames) == Sender.Fragments(opcode, message, useMask, keys) && a.chunks == []
    requires AllDataOrHeartbeat(frames)
    requires opcode == TEXT_FRAME ==> WellFormed(message)
    ensures var t := AllTurns(Rx(EncodeFrames(frames), 0, a), pong);
            && t.rx.buf == [] && t.rx.assembly.chunks == []
            && Outcomes(t.events) == [Message(opcode == TEXT_FRAME, message)]
            && Heartbeats(t.events) == Replies(frames, pong)
  {
    hide AllTurns, Fragmentation;
    SentIsFragmentation(opcode, message, useMask, keys);
    forall f | f in frames ensures Acceptable(f) {
      if IsData(f.opcode) {
        InDataFrames(frames, f);
        FragmentIsShort(opcode, message, useMask, keys, f);
      }
    }
    MessageDelivered(frames, opcode, message, a, pong);
  }

  lemma {:induction false} InDataFrames(frames: seq<Frame>, f: Frame)
    requires f in frames && IsData(f.opcode)
    ensures f in DataFrames(frames)
    decreases |frames|
  {
    if f != frames[0] {
      InDataFrames(frames[1..], f);
    }
  }

  lemma FragmentIsShort(opcode: nat, message: Bytes, useMask: bool, keys: nat -> Key, f: Frame)
    requires f in Sender.Fragments(opcode, message, useMask, keys)
    ensures |f.payload| < 65536
  {
    var i :| 0 <= i < Sender.FragmentCount(|message|) && f == Sender.FragmentAt(opcode, message, useMask, keys, i);
    Sender.FragmentsAreShort(opcode, message, useMask, keys, i);
  }

  /** The bytes that have left the sender never make the receiver stop. */
  lemma SentBytesDispatch(sent: Bytes, pending: Bytes, frames: seq<Frame>, a: Assembly, pong: bool)
    requires AllAcceptable(frames) && sent + pending == EncodeFrames(frames)
    ensures AllTurns(Append(Rx([], 0, a), sent), pong).flow != Stopped
  {
    hide AllTurns, Acceptable, EncodeFrames, OnFrames;
    FramesTurns(frames, a, pong);
    assert [] + (sent + pending) == sent + pending;
    NotStopped(Rx([], 0, a), sent, pending, pong);
  }
}
