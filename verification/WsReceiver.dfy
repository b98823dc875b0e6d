/** The receiving half of a WebSocket connection: a parser that can stop anywhere and a
    machine that puts fragmented messages together (sections 5.2 to 5.5 of RFC 6455). */
module WebSocketReceiver {
  import opened Bits
  import opened Sequences
  import opened Numbers
  import opened Utf8
  import opened WebSocketFrame
  import opened WebSocketSocket

  datatype Reason =
    | ReservedBitUsed
    | ControlMessageFragmented
    | DataOpcodeOutOfSequence
    | ContinuationOpcodeOutOfSequence
    | PingPayloadOversized
    | InvalidPayloadData
    | UnexpectedFrame

  /** What a dispatch does to the outside: message callbacks, replies, and calls of close. */
  datatype Event =
    | Message(text: bool, data: Bytes)
    | Fragment
    | Ping(data: Bytes)
    | Pong(data: Bytes)
    | SendPong(data: Bytes)
    | PeerClose(data: Bytes)
    | Close(reason: Reason)

  /** The chunks of the message being put together, and its kind. */
  datatype Assembly = Assembly(chunks: seq<Bytes>, text: bool)

  datatype Rx = Rx(buf: Bytes, wanted: nat, assembly: Assembly)

  /** How one turn of the dispatch loop ends: go on, leave the loop for lack of a header,
      return for lack of payload, or return on an error with the frame kept. */
  datatype Flow = Continue | NoHeader | NoPayload | Stopped

  datatype Turn = Turn(rx: Rx, events: seq<Event>, flow: Flow)

  /** emitMessage without compression. */
  ghost function Emit(text: bool, data: Bytes): seq<Event> {
    if text && !WellFormed(data) then [Close(InvalidPayloadData)] else [Message(text, data)]
  }

  predicate IsData(opcode: nat) {
    opcode == TEXT_FRAME || opcode == BINARY_FRAME || opcode == CONTINUATION
  }

  predicate IsControl(opcode: nat) {
    opcode == PING || opcode == PONG || opcode == CLOSE
  }

  /** Errors in the order of data frames; they do not stop the loop. */
  function OutOfSequence(a: Assembly, opcode: nat): seq<Event> {
    if opcode != CONTINUATION then
      if a.chunks != [] then [Close(DataOpcodeOutOfSequence)] else []
    else
      if a.chunks == [] then [Close(ContinuationOpcodeOutOfSequence)] else []
  }

  ghost function OnData(a: Assembly, fin: bool, opcode: nat, data: Bytes): (Assembly, seq<Event>) {
    var text := if opcode == CONTINUATION then a.text else opcode == TEXT_FRAME;
    var errors := OutOfSequence(a, opcode);
    if fin && a.chunks == [] then
      (Assembly([], text), errors + Emit(text, data))
    else if fin then
      (Assembly([], text), errors + Emit(text, Concat(a.chunks + [data])))
    else
      (Assembly(a.chunks + [data], text), errors + [Fragment])
  }

  ghost function OnFrame(a: Assembly, fin: bool, opcode: nat, data: Bytes, pong: bool): (Assembly, seq<Event>) {
    if IsData(opcode) then OnData(a, fin, opcode, data)
    else if opcode == PING then (a, (if pong then [SendPong(data)] else []) + [Ping(data)])
    else if opcode == PONG then (a, [Pong(data)])
    else if opcode == CLOSE then (a, [PeerClose(data)])
    else (a, [Close(UnexpectedFrame)])
  }

  /** The buffer with the payload of its first frame unmasked in place. */
  function Unmasked(s: Bytes): Bytes
    requires HasHeader(s) && |s| >= FrameSize(s)
  {
    s[..HeaderSize(s)] + Payload(s) + s[FrameSize(s)..]
  }

  /** The rest of a turn once a whole frame is in the buffer. */
  ghost function StepFrame(rx: Rx, pong: bool): (t: Turn)
    requires HasHeader(rx.buf) && |rx.buf| >= FrameSize(rx.buf)
    ensures t.flow == Stopped || t.flow == Continue
    ensures t.flow == Continue ==> |t.rx.buf| < |rx.buf|
  {
    var s := rx.buf;
    if !Fin(s) && IsControl(Opcode(s)) then
      Turn(rx.(wanted := 0), [Close(ControlMessageFragmented)], Stopped)
    else if Opcode(s) == PING && PayloadLength(s) > 125 then
      Turn(rx.(buf := Unmasked(s), wanted := 0), [Close(PingPayloadOversized)], Stopped)
    else
      var (assembly, events) := OnFrame(rx.assembly, Fin(s), Opcode(s), Payload(s), pong);
      Turn(Rx(s[FrameSize(s)..], 0, assembly), events, Continue)
  }

  /** One turn of the loop of dispatch. */
  ghost function OneTurn(rx: Rx, pong: bool): (t: Turn)
    ensures t.flow == Continue ==> |t.rx.buf| < |rx.buf|
  {
    var s := rx.buf;
    if !HasHeader(s) then Turn(rx, [], NoHeader)
    else if Reserved(s) then Turn(rx, [Close(ReservedBitUsed)], Stopped)
    else if PayloadLength(s) > 0x8000_0000_0000_0000 then Turn(rx, [], Stopped)
    else if |s| < FrameSize(s) then Turn(rx.(wanted := FrameSize(s)), [], NoPayload)
    else StepFrame(rx, pong)
  }

  /** The whole loop. */
  ghost function AllTurns(rx: Rx, pong: bool): (t: Turn)
    ensures t.flow != Continue
    decreases |rx.buf|
  {
    var t := OneTurn(rx, pong);
    if t.flow != Continue then t
    else
      var u := AllTurns(t.rx, pong);
      Turn(u.rx, t.events + u.events, u.flow)
  }

  function Append(rx: Rx, more: Bytes): Rx {
    rx.(buf := rx.buf + more)
  }

  // ----- Cutting the stream.

  /** A turn that got its whole frame, or that found an error, does not see what follows. */
  lemma StepAppend(rx: Rx, more: Bytes, pong: bool)
    requires OneTurn(rx, pong).flow == Continue || OneTurn(rx, pong).flow == Stopped
    ensures var t, u := OneTurn(rx, pong), OneTurn(Append(rx, more), pong); u.flow == t.flow && u.events == t.events
    ensures OneTurn(rx, pong).flow == Continue ==>
              OneTurn(Append(rx, more), pong).rx == Append(OneTurn(rx, pong).rx, more)
  {
    hide OnFrame, Payload, PayloadLength, Reserved, Fin, Opcode, HeaderSize, MaskingKey;
    var s := rx.buf;
    HeaderPrefix(s, more);
    if |s| >= FrameSize(s) {
      assert (s + more)[FrameSize(s)..] == s[FrameSize(s)..] + more;
    }
  }

  /** Where a turn waits, the length that it waits for is of no importance to what comes next. */
  lemma StepWaiting(rx: Rx, more: Bytes, pong: bool)
    requires OneTurn(rx, pong).flow == NoPayload
    ensures OneTurn(Append(rx, more), pong) == OneTurn(Append(OneTurn(rx, pong).rx, more), pong)
  {
    hide OnFrame, Payload, PayloadLength, Reserved, Fin, Opcode, HeaderSize, MaskingKey, Unmasked;
    HeaderPrefix(rx.buf, more);
  }

  /** A run that waits can be carried on with the bytes that arrive next: dispatching twice
      is dispatching once over all of the bytes. */
  lemma {:induction false} RunAppend(rx: Rx, more: Bytes, pong: bool)
    requires AllTurns(rx, pong).flow != Stopped
    ensures var t := AllTurns(rx, pong);
            var u := AllTurns(Append(t.rx, more), pong);
            AllTurns(Append(rx, more), pong) == Turn(u.rx, t.events + u.events, u.flow)
    decreases |rx.buf|
  {
    hide OneTurn;
    var t := OneTurn(rx, pong);
    if t.flow == Continue {
      StepAppend(rx, more, pong);
      RunAppend(t.rx, more, pong);
    } else {
      StepIdle(rx, pong);
      if t.flow == NoPayload {
        StepWaiting(rx, more, pong);
        RunSame(Append(rx, more), Append(t.rx, more), pong);
      }
    }
  }

  lemma RunSame(rx: Rx, ry: Rx, pong: bool)
    requires OneTurn(rx, pong) == OneTurn(ry, pong)
    ensures AllTurns(rx, pong) == AllTurns(ry, pong)
  {
    hide OneTurn;
  }

  lemma StepIdle(rx: Rx, pong: bool)
    requires OneTurn(rx, pong).flow == NoHeader || OneTurn(rx, pong).flow == NoPayload
    ensures OneTurn(rx, pong).events == []
    ensures OneTurn(rx, pong).flow == NoHeader ==> OneTurn(rx, pong).rx == rx
  {
  }

  /** An error in a part of the stream is an error in the stream. */
  lemma {:induction false} StopsAppend(rx: Rx, more: Bytes, pong: bool)
    requires AllTurns(rx, pong).flow == Stopped
    ensures AllTurns(Append(rx, more), pong).flow == Stopped
    decreases |rx.buf|
  {
    hide OneTurn;
    StepAppend(rx, more, pong);
    var t := OneTurn(rx, pong);
    if t.flow == Continue {
      StopsAppend(t.rx, more, pong);
    }
  }

  // ----- The receiver.

  /** What makes receiveFromSocket stop reading. */
  function Limit(wanted: nat): nat {
    if wanted == 0 then CHUNK_SIZE else wanted
  }

  class Receiver {
    const enablePong: bool
    var rxbuf: Bytes
    var rxbufWanted: nat
    var chunks: seq<Bytes>
    var text: bool
    var events: seq<Event>

    constructor (pong: bool)
      ensures enablePong == pong && rxbuf == [] && rxbufWanted == 0 && chunks == [] && events == []
    {
      enablePong := pong;
      rxbuf, rxbufWanted, chunks, events := [], 0, [], [];
    }

    ghost function State(): Rx
      reads this
    {
      Rx(rxbuf, rxbufWanted, Assembly(chunks, text))
    }

    /** unmaskReceiveBuffer: the payload is unmasked where it lies. */
    method UnmaskReceiveBuffer(key: Option<Key>, headerSize: nat, n: nat)
      requires headerSize + n <= |rxbuf|
      modifies this`rxbuf
      ensures rxbuf == old(rxbuf)[..headerSize] + Masked(key, old(rxbuf)[headerSize..headerSize + n])
                       + old(rxbuf)[headerSize + n..]
    {
      if key.Some? {
        ghost var was := rxbuf;
        var j := 0;
        while j < n
          invariant j <= n && |rxbuf| == |was|
          invariant forall k | 0 <= k < |was| && !(headerSize <= k < headerSize + j) :: rxbuf[k] == was[k]
          invariant forall k | headerSize <= k < headerSize + j ::
            rxbuf[k] == XorByte(was[k], key.value[(k - headerSize) % 4])
        {
          rxbuf := rxbuf[j + headerSize := XorByte(rxbuf[j + headerSize], key.value[j % 4])];
          j := j + 1;
        }
      }
    }

    method EmitMessage(kind: bool, message: Bytes)
      modifies this`events
      ensures events == old(events) + Emit(kind, message)
    {
      var valid := true;
      if kind {
        valid := ValidateUtf8(message);
      }
      if !valid {
        events := events + [Close(InvalidPayloadData)];
      } else {
        events := events + [Message(kind, message)];
      }
    }

    method GetMergedChunks() returns (msg: Bytes)
      ensures msg == Concat(chunks)
    {
      msg := [];
      for i := 0 to |chunks|
        invariant msg == Concat(chunks[..i])
      {
        ConcatNext(chunks, i);
        msg := msg + chunks[i];
      }
      assert chunks[..|chunks|] == chunks;
    }

    /** The kind of a message begun, and the errors in the order of data frames. */
    method NoteOpcode(opcode: nat)
      modifies this`text, this`events
      ensures text == if opcode == CONTINUATION then old(text) else opcode == TEXT_FRAME
      ensures events == old(events) + OutOfSequence(old(State().assembly), opcode)
    {
      if opcode != CONTINUATION {
        text := opcode == TEXT_FRAME;
        if chunks != [] {
          events := events + [Close(DataOpcodeOutOfSequence)];
        }
      } else if chunks == [] {
        events := events + [Close(ContinuationOpcodeOutOfSequence)];
      }
    }

    /** The branch of dispatch for TEXT, BINARY and CONTINUATION. */
    method OnDataFrame(fin: bool, opcode: nat, frameData: Bytes)
      requires IsData(opcode)
      modifies this`chunks, this`text, this`events
      ensures var (assembly, evs) := OnData(old(State().assembly), fin, opcode, frameData);
              State().assembly == assembly && events == old(events) + evs
    {
      hide OutOfSequence, Concat, Emit;
      NoteOpcode(opcode);
      if fin && chunks == [] {
        EmitMessage(text, frameData);
      } else {
        chunks := chunks + [frameData];
        if fin {
          var merged := GetMergedChunks();
          EmitMessage(text, merged);
          chunks := [];
        } else {
          events := events + [Fragment];
        }
      }
    }

    /** The length of the payload, read byte by byte as dispatch does. */
    method ReadLength() returns (n: nat)
      requires HasHeader(rxbuf)
      ensures n == PayloadLength(rxbuf)
    {
      var data := rxbuf;
      var n0 := data[1] % 128;
      if n0 < 126 {
        n := n0;
      } else if n0 == 126 {
        n := Shl(data[2], 8) + data[3];
        TwoBytes(data[2..4]);
      } else {
        n := Shl(data[2], 56) + Shl(data[3], 48) + Shl(data[4], 40) + Shl(data[5], 32)
             + Shl(data[6], 24) + Shl(data[7], 16) + Shl(data[8], 8) + data[9];
        EightBytes(data[2..10]);
      }
    }

    /** The header of the first frame, if all of it has arrived. */
    method ReadHeader() returns (complete: bool, fin: bool, reserved: bool, opcode: nat,
                                 key: Option<Key>, headerSize: nat, n: nat)
      ensures complete == HasHeader(rxbuf)
      ensures complete ==>
                && fin == Fin(rxbuf) && reserved == Reserved(rxbuf) && opcode == Opcode(rxbuf)
                && key == MaskingKey(rxbuf) && headerSize == HeaderSize(rxbuf) && n == PayloadLength(rxbuf)
    {
      hide PayloadLength;
      complete, fin, reserved, opcode, key, headerSize, n := false, false, false, 0, None, 0, 0;
      if |rxbuf| < 2 {
        return;
      }
      fin, opcode := rxbuf[0] >= 128, rxbuf[0] % 16;
      var n0, mask := rxbuf[1] % 128, rxbuf[1] >= 128;
      headerSize := 2 + (if n0 == 126 then 2 else 0) + (if n0 == 127 then 8 else 0) + (if mask then 4 else 0);
      if |rxbuf| < headerSize {
        return;
      }
      complete := true;
      reserved := rxbuf[0] / 64 % 2 == 1 || rxbuf[0] / 32 % 2 == 1 || rxbuf[0] / 16 % 2 == 1;
      n := ReadLength();
      var i := if n0 < 126 then 2 else if n0 == 126 then 4 else 10;
      key := if mask then Some(rxbuf[i..i + 4]) else None;
    }

    /** The branches of dispatch on the opcode of an unmasked frame. */
    method HandleFrame(fin: bool, opcode: nat, frameData: Bytes) returns (stopped: bool)
      modifies this`chunks, this`text, this`events
      ensures stopped <==> opcode == PING && |frameData| > 125
      ensures stopped ==> State() == old(State()) && events == old(events) + [Close(PingPayloadOversized)]
      ensures var (assembly, evs) := OnFrame(old(State().assembly), fin, opcode, frameData, enablePong);
              !stopped ==> State().assembly == assembly && events == old(events) + evs
    {
      hide Emit, OnData;
      if opcode == TEXT_FRAME || opcode == BINARY_FRAME || opcode == CONTINUATION {
        OnDataFrame(fin, opcode, frameData);
      } else if opcode == PING {
        if |frameData| > 125 {
          events := events + [Close(PingPayloadOversized)];
          return true;
        }
        if enablePong {
          events := events + [SendPong(frameData)];
        }
        events := events + [Ping(frameData)];
      } else if opcode == PONG {
        events := events + [Pong(frameData)];
      } else if opcode == CLOSE {
        events := events + [PeerClose(frameData)];
      } else {
        events := events + [Close(UnexpectedFrame)];
      }
      return false;
    }

    /** The part of dispatch that works on a whole frame. */
    method DispatchFrame(fin: bool, opcode: nat, key: Option<Key>, headerSize: nat, n: nat) returns (flow: Flow)
      requires HasHeader(rxbuf) && |rxbuf| >= FrameSize(rxbuf)
      requires fin == Fin(rxbuf) && opcode == Opcode(rxbuf) && key == MaskingKey(rxbuf)
      requires headerSize == HeaderSize(rxbuf) && n == PayloadLength(rxbuf)
      modifies this
      ensures var t := StepFrame(old(State()), enablePong);
              flow == t.flow && State() == t.rx && events == old(events) + t.events
    {
      hide Masked, PayloadLength, MaskingKey, HeaderSize, OnFrame;
      rxbufWanted := 0;
      if !fin && (opcode == PING || opcode == PONG || opcode == CLOSE) {
        events := events + [Close(ControlMessageFragmented)];
        return Stopped;
      }
      ghost var was := rxbuf;
      UnmaskReceiveBuffer(key, headerSize, n);
      var frameData := rxbuf[headerSize..headerSize + n];
      assert frameData == Payload(was) && rxbuf == Unmasked(was);
      var stopped := HandleFrame(fin, opcode, frameData);
      if stopped {
        return Stopped;
      }
      rxbuf := rxbuf[headerSize + n..];
      assert rxbuf == was[headerSize + n..];
      return Continue;
    }

    /** The body of the loop of dispatch. */
    method DispatchTurn() returns (flow: Flow)
      modifies this
      ensures var t := OneTurn(old(State()), enablePong);
              flow == t.flow && State() == t.rx && events == old(events) + t.events
    {
      hide StepFrame, PayloadLength, Fin, Reserved, Opcode, MaskingKey, HeaderSize;
      var complete, fin, reserved, opcode, key, headerSize, n := ReadHeader();
      if !complete {
        return NoHeader;
      }
      if reserved {
        events := events + [Close(ReservedBitUsed)];
        return Stopped;
      }
      if n > 0x8000_0000_0000_0000 {
        return Stopped;
      }
      if |rxbuf| < headerSize + n {
        rxbufWanted := headerSize + n;
        return NoPayload;
      }
      flow := DispatchFrame(fin, opcode, key, headerSize, n);
    }

    /** dispatch runs the loop to its end; what cannot be used yet stays in the buffer, unless
        the poll failed and there is no frame to wait for. */
    method Dispatch(succeeded: bool) returns (ghost flow: Flow)
      modifies this
      ensures var t := AllTurns(old(State()), enablePong);
              flow == t.flow && events == old(events) + t.events
              && State() == if t.flow == NoHeader && !succeeded then t.rx.(buf := []) else t.rx
    {
      hide OneTurn, AllTurns;
      ghost var done: seq<Event> := [];
      var turn := Continue;
      while turn == Continue
        invariant events == old(events) + done
        invariant var u := if turn == Continue then AllTurns(State(), enablePong) else Turn(State(), [], turn);
                  AllTurns(old(State()), enablePong) == Turn(u.rx, done + u.events, u.flow)
        decreases if turn == Continue then |rxbuf| + 1 else 0
      {
        ghost var rx := State();
        RunStep(rx, enablePong);
        turn := DispatchTurn();
        done := done + OneTurn(rx, enablePong).events;
      }
      flow := turn;
      if turn == NoHeader && !succeeded {
        rxbuf := [];
      }
    }

    /** receiveFromSocket: reads until the buffer holds what is wanted or the socket wishes to wait or
        fails; below the limit it asks at least once. No byte is lost, and the buffer never grows past
        the limit by a whole read. */
    method ReceiveFromSocket(link: Link) returns (ok: bool, ghost received: Bytes)
      modifies this`rxbuf, link
      ensures rxbuf == old(rxbuf) + received && received + link.incoming == old(link.incoming)
      ensures received != [] ==> |rxbuf| < Limit(rxbufWanted) + CHUNK_SIZE
      ensures old(link.answers) <= link.answers && BytesUntilLast(link.answers, |old(link.answers)|)
      ensures |old(rxbuf)| < Limit(rxbufWanted) <==> |link.answers| > |old(link.answers)|
      ensures ok <==> NoFailure(link.answers, |old(link.answers)|)
      ensures ok ==> |rxbuf| >= Limit(rxbufWanted) || link.answers[|link.answers| - 1] == Wait
    {
      received := [];
      while true
        invariant rxbuf == old(rxbuf) + received && received + link.incoming == old(link.incoming)
        invariant received != [] ==> |rxbuf| < Limit(rxbufWanted) + CHUNK_SIZE
        invariant |old(rxbuf)| >= Limit(rxbufWanted) ==> received == []
        invariant old(link.answers) <= link.answers
        invariant forall i | |old(link.answers)| <= i < |link.answers| :: link.answers[i].Took?
        invariant received != [] <==> |link.answers| > |old(link.answers)|
        decreases |link.incoming|
      {
        if rxbufWanted == 0 && |rxbuf| >= CHUNK_SIZE {
          break;
        }
        if rxbufWanted > 0 && |rxbuf| >= rxbufWanted {
          break;
        }
        var ret, data, waitNeeded := link.Recv(CHUNK_SIZE);
        if ret < 0 && waitNeeded {
          break;
        } else if ret <= 0 {
          assert link.answers[|link.answers| - 1] == Fail;
          return false, received;
        } else {
          rxbuf := rxbuf + data;
          received := received + data;
        }
      }
      ok := true;
    }
  }

  lemma RunStep(rx: Rx, pong: bool)
    ensures var t := OneTurn(rx, pong);
            AllTurns(rx, pong) == if t.flow != Continue then t
                             else var u := AllTurns(t.rx, pong); Turn(u.rx, t.events + u.events, u.flow)
  {
    hide OneTurn;
  }

  lemma TwoBytes(s: Bytes)
    requires |s| == 2
    ensures BigEndianValue(s) == Shl(s[0], 8) + s[1]
  {
    assert s[..2] == s && s[..0] == [];
    PrefixValue(s, 2);
    PrefixValue(s, 1);
    ShlBytes(s[0]);
  }

  lemma ShlEight(n: nat, k: nat)
    ensures Shl(n, k + 8) == 256 * Shl(n, k)
  {
    hide Shl;
    ShlMore(n, k);
    ShlMore(n, k + 1);
    ShlMore(n, k + 2);
    ShlMore(n, k + 3);
    ShlMore(n, k + 4);
    ShlMore(n, k + 5);
    ShlMore(n, k + 6);
    ShlMore(n, k + 7);
  }

  lemma ShlMore(n: nat, k: nat)
    ensures Shl(n, k + 1) == 2 * Shl(n, k)
  {
  }

  lemma ShlBytes(n: nat)
    ensures Shl(n, 8) == 0x100 * n && Shl(n, 16) == 0x1_0000 * n && Shl(n, 24) == 0x100_0000 * n
    ensures Shl(n, 32) == 0x1_0000_0000 * n && Shl(n, 40) == 0x100_0000_0000 * n
    ensures Shl(n, 48) == 0x1_0000_0000_0000 * n && Shl(n, 56) == 0x100_0000_0000_0000 * n
  {
    ShlEight(n, 0);
    ShlEight(n, 8);
    ShlEight(n, 16);
    ShlEight(n, 24);
    ShlEight(n, 32);
    ShlEight(n, 40);
    ShlEight(n, 48);
  }

  lemma PrefixValue(s: Bytes, j: nat)
    requires 0 < j <= |s|
    ensures BigEndianValue(s[..j]) == 256 * BigEndianValue(s[..j - 1]) + s[j - 1]
  {
    assert s[..j][..j - 1] == s[..j - 1];
  }

  lemma EightBytes(s: Bytes)
    requires |s| == 8
    ensures BigEndianValue(s) == Shl(s[0], 56) + Shl(s[1], 48) + Shl(s[2], 40) + Shl(s[3], 32)
                                 + Shl(s[4], 24) + Shl(s[5], 16) + Shl(s[6], 8) + s[7]
  {
    FourBytes(s);
    hide Shl, BigEndianValue;
    ShlBytes(s[0]);
    ShlBytes(s[1]);
    ShlBytes(s[2]);
    ShlBytes(s[3]);
    ShlBytes(s[4]);
    ShlBytes(s[5]);
    ShlBytes(s[6]);
    assert s[..8] == s;
    PrefixValue(s, 8);
    PrefixValue(s, 7);
    PrefixValue(s, 6);
    PrefixValue(s, 5);
  }

  lemma FourBytes(s: Bytes)
    requires |s| >= 4
    ensures var a: nat, b: nat, c: nat, d: nat := s[0], s[1], s[2], s[3];
            BigEndianValue(s[..4]) == 0x100_0000 * a + 0x1_0000 * b + 0x100 * c + d
  {
    hide BigEndianValue;
    PrefixValue(s, 4);
    PrefixValue(s, 3);
    PrefixValue(s, 2);
    PrefixValue(s, 1);
    assert s[..0] == [];
    NoBytes();
  }

  lemma NoBytes()
    ensures BigEndianValue([]) == 0
  {
  }

  // ----- Whole connections.

  /** No frame is awaited before its header has arrived. */
  predicate Ready(rx: Rx) {
    rx.wanted > 0 ==> HasHeader(rx.buf)
  }

  /** Either the header is incomplete and nothing is awaited, or the frame is, and exactly it is awaited. */
  predicate Waiting(rx: Rx) {
    if rx.wanted == 0 then !HasHeader(rx.buf)
    else HasHeader(rx.buf) && |rx.buf| < FrameSize(rx.buf) == rx.wanted
  }

  /** After a dispatch that met no error the receiver waits, so that receiveFromSocket reads on. */
  lemma {:induction false} DispatchSettles(rx: Rx, pong: bool)
    requires Ready(rx) && AllTurns(rx, pong).flow != Stopped
    ensures Waiting(AllTurns(rx, pong).rx)
    decreases |rx.buf|
  {
    hide StepFrame;
    RunStep(rx, pong);
    if OneTurn(rx, pong).flow == Continue {
      StepFrameWanted(rx, pong);
      DispatchSettles(OneTurn(rx, pong).rx, pong);
    }
  }

  lemma StepFrameWanted(rx: Rx, pong: bool)
    requires HasHeader(rx.buf) && |rx.buf| >= FrameSize(rx.buf)
    ensures StepFrame(rx, pong).rx.wanted == 0
  {
  }

  /** A waiting receiver is below the limit at which receiveFromSocket stops asking. */
  lemma WaitingBelowLimit(rx: Rx)
    requires Waiting(rx)
    ensures |rx.buf| < Limit(rx.wanted)
  {
  }

  lemma WaitingAppend(rx: Rx, more: Bytes)
    requires Waiting(rx)
    ensures Ready(Append(rx, more))
  {
    if rx.wanted > 0 {
      HeaderPrefix(rx.buf, more);
    }
  }

  lemma AppendAppend(rx: Rx, a: Bytes, b: Bytes)
    ensures Append(Append(rx, a), b) == Append(rx, a + b)
  {
    assert rx.buf + a + b == rx.buf + (a + b);
  }

  /** One poll: the state it found, what it received, and how often it asked. */
  datatype Poll = Poll(before: Rx, got: Bytes, asked: nat)

  /** A poll that reads: it finds a waiting receiver, asks at least once, and stays within the bound. */
  ghost predicate Reads(p: Poll) {
    Waiting(p.before) && p.asked > 0 && |p.before.buf| + |p.got| < Limit(p.before.wanted) + CHUNK_SIZE
  }

  /** The bytes that a run of polls received, and how often they asked. */
  function Received(polls: seq<Poll>): Bytes
    decreases |polls|
  {
    if polls == [] then [] else Received(polls[..|polls| - 1]) + polls[|polls| - 1].got
  }

  function Asked(polls: seq<Poll>): nat
    decreases |polls|
  {
    if polls == [] then 0 else Asked(polls[..|polls| - 1]) + polls[|polls| - 1].asked
  }

  /** Each poll starts where dispatching everything received before it has led. */
  ghost predicate Chained(start: Rx, polls: seq<Poll>, pong: bool) {
    forall i | 0 <= i < |polls| ::
      Reads(polls[i]) && polls[i].before == AllTurns(Append(start, Received(polls[..i])), pong).rx
  }

  lemma ChainedSnoc(start: Rx, polls: seq<Poll>, p: Poll, pong: bool)
    requires Chained(start, polls, pong) && Reads(p)
    requires p.before == AllTurns(Append(start, Received(polls)), pong).rx
    ensures Chained(start, polls + [p], pong)
    ensures Received(polls + [p]) == Received(polls) + p.got && Asked(polls + [p]) == Asked(polls) + p.asked
  {
    hide AllTurns, Reads, Append, Received;
    var all := polls + [p];
    assert all[..|polls|] == polls;
    forall i | 0 <= i < |all|
      ensures Reads(all[i]) && all[i].before == AllTurns(Append(start, Received(all[..i])), pong).rx
    {
      assert all[..i] == polls[..i];
    }
    ReceivedSnoc(polls, p);
  }

  lemma ReceivedSnoc(polls: seq<Poll>, p: Poll)
    ensures Received(polls + [p]) == Received(polls) + p.got
  {
    assert (polls + [p])[..|polls|] == polls;
  }

  /** A connection that is polled any number of times: however the stream is cut by the network,
      by recv and by the reading limit, the callbacks and the leftover bytes are those of one
      dispatch over everything that was received. Reading never stalls: every poll asks the socket
      at least once, until it fails, and the buffer stays within its bound throughout. */
  method Session(r: Receiver, link: Link, polls: nat) returns (ghost trace: seq<Poll>, open: bool)
    requires Waiting(r.State())
    requires AllTurns(Append(r.State(), link.incoming), r.enablePong).flow != Stopped
    modifies r, link
    ensures Received(trace) + link.incoming == old(link.incoming)
    ensures Chained(old(r.State()), trace, r.enablePong)
    ensures r.events == old(r.events) + AllTurns(Append(old(r.State()), Received(trace)), r.enablePong).events
    ensures old(link.answers) <= link.answers && |link.answers| == |old(link.answers)| + Asked(trace)
    ensures open <==> NoFailure(link.answers, |old(link.answers)|)
    ensures open ==> |trace| == polls && Waiting(r.State())
                     && r.State() == AllTurns(Append(old(r.State()), Received(trace)), r.enablePong).rx
  {
    hide AllTurns, Waiting, Ready, Append, Received, Reads, Chained;
    ghost var start, sent, pong := r.State(), link.incoming, r.enablePong;
    trace, open := [], true;
    NothingReceived(start, pong);
    AppendNothing(start);
    assert [] + sent == sent;
    NotStopped(start, [], sent, pong);
    WaitingIsDone(start, pong);
    for poll := 0 to polls
      invariant open && |trace| == poll && Chained(start, trace, pong)
      invariant Received(trace) + link.incoming == sent && Waiting(r.State())
      invariant old(link.answers) <= link.answers && |link.answers| == |old(link.answers)| + Asked(trace)
      invariant NoFailure(link.answers, |old(link.answers)|)
      invariant var t := AllTurns(Append(start, Received(trace)), pong);
                t.flow != Stopped && r.State() == t.rx && r.events == old(r.events) + t.events
    {
      ghost var before, received, asked := r.State(), Received(trace), link.answers;
      WaitingBelowLimit(before);
      var ok, got := r.ReceiveFromSocket(link);
      ghost var p := Poll(before, got, |link.answers| - |asked|);
      PollReads(p, r.State());
      ReceivedIsAppended(before, r.State(), got);
      RunAppend(Append(start, received), got, pong);
      AppendAppend(start, received, got);
      assert received + (got + link.incoming) == (received + got) + link.incoming;
      ChainedSnoc(start, trace, p, pong);
      FailuresAdd(asked, link.answers, |old(link.answers)|);
      trace := trace + [p];
      NotStopped(start, received + got, link.incoming, pong);
      WaitingAppend(before, got);
      DispatchSettles(r.State(), pong);
      ghost var flow := r.Dispatch(ok);
      if !ok {
        return trace, false;
      }
    }
  }

  lemma PollReads(p: Poll, after: Rx)
    requires Waiting(p.before) && p.asked > 0 && |after.buf| == |p.before.buf| + |p.got|
    requires after.wanted == p.before.wanted
    requires p.got != [] ==> |after.buf| < Limit(after.wanted) + CHUNK_SIZE
    ensures Reads(p)
  {
    WaitingBelowLimit(p.before);
  }

  lemma NothingReceived(start: Rx, pong: bool)
    ensures Received([]) == [] && Asked([]) == 0 && Chained(start, [], pong)
  {
  }

  lemma AppendNothing(rx: Rx)
    ensures Append(rx, []) == rx
  {
    assert rx.buf + [] == rx.buf;
  }

  lemma ReceivedIsAppended(before: Rx, after: Rx, got: Bytes)
    requires after == before.(buf := before.buf + got)
    ensures after == Append(before, got)
  {
  }

  lemma NotStopped(rx: Rx, a: Bytes, b: Bytes, pong: bool)
    requires AllTurns(Append(rx, a + b), pong).flow != Stopped
    ensures AllTurns(Append(rx, a), pong).flow != Stopped
  {
    hide AllTurns;
    AppendAppend(rx, a, b);
    if AllTurns(Append(rx, a), pong).flow == Stopped {
      StopsAppend(Append(rx, a), b, pong);
    }
  }

  lemma WaitingIsDone(rx: Rx, pong: bool)
    requires Waiting(rx) && AllTurns(rx, pong).flow != Stopped
    ensures var t := AllTurns(rx, pong); t.rx == rx && t.events == []
  {
    hide StepFrame;
  }
}
