/** The sending half of a WebSocket connection: messages are cut into frames, framed, masked and
    handed to the socket as far as it takes them (sections 5.2 to 5.4 of RFC 6455). */
module WebSocketSender {
  import opened Bits
  import opened Numbers
  import opened WebSocketFrame
  import opened WebSocketSocket

  datatype ReadyState = Closing | Closed | Connecting | Open

  /** What isReadyToWrite can answer. */
  datatype Readiness = ReadyForWrite | NotYet | ReadyError

  // ----- What sendData puts on the wire.

  function FragmentCount(n: nat): (steps: nat)
    ensures steps >= 1
  {
    if n < CHUNK_SIZE then 1 else n / CHUNK_SIZE
  }

  function FragmentEnd(n: nat, i: nat): (end: nat)
    requires i < FragmentCount(n)
    ensures i * CHUNK_SIZE <= end <= n
  {
    if i + 1 == FragmentCount(n) then n else (i + 1) * CHUNK_SIZE
  }

  function FragmentAt(opcode: nat, message: Bytes, useMask: bool, keys: nat -> Key, i: nat): Frame
    requires i < FragmentCount(|message|)
  {
    Frame(i + 1 == FragmentCount(|message|), if i == 0 then opcode else CONTINUATION,
          if useMask then Some(keys(i)) else None, message[i * CHUNK_SIZE..FragmentEnd(|message|, i)])
  }

  /** Every frame but the last carries one chunk; the last carries all that is left. */
  function Fragments(opcode: nat, message: Bytes, useMask: bool, keys: nat -> Key): seq<Frame> {
    seq(FragmentCount(|message|), i requires 0 <= i < FragmentCount(|message|) =>
      FragmentAt(opcode, message, useMask, keys, i))
  }

  /** No fragment ever needs the 64-bit form of the length. */
  lemma FragmentsAreShort(opcode: nat, message: Bytes, useMask: bool, keys: nat -> Key, i: nat)
    requires i < FragmentCount(|message|)
    ensures |FragmentAt(opcode, message, useMask, keys, i).payload| < 65536
    ensures LengthField(|FragmentAt(opcode, message, useMask, keys, i).payload|)[0] <= 126
  {
    var n := |message|;
    assert FragmentEnd(n, i) - i * CHUNK_SIZE < 65536;
  }

  // ----- The sender.

  class Sender {
    const useMask: bool
    const blockingSend: bool
    var txbuf: Bytes
    var readyState: ReadyState

    /** An open connection: a client masks, and a server sends blocking. */
    constructor (mask: bool, blocking: bool)
      ensures useMask == mask && blockingSend == blocking && txbuf == [] && readyState == Open
    {
      useMask, blockingSend, txbuf, readyState := mask, blocking, [], Open;
    }

    /** appendToSendBuffer: the payload is masked where it lies, at the end of the buffer. */
    method AppendToSendBuffer(header: Bytes, message: Bytes, maskingKey: Key)
      modifies this`txbuf
      ensures txbuf == old(txbuf) + header + Masked(if useMask then Some(maskingKey) else None, message)
    {
      ghost var was := txbuf + header;
      txbuf := txbuf + header;
      txbuf := txbuf + message;
      if useMask {
        var messageSize := |message|;
        var i := 0;
        while i != messageSize
          invariant i <= messageSize && |txbuf| == |was| + messageSize
          invariant forall k | 0 <= k < |was| :: txbuf[k] == was[k]
          invariant forall k | |was| <= k < |was| + i ::
            txbuf[k] == XorByte(message[k - |was|], maskingKey[(k - |was|) % 4])
          invariant forall k | |was| + i <= k < |was| + messageSize :: txbuf[k] == message[k - |was|]
        {
          var at := |txbuf| - messageSize + i;
          txbuf := txbuf[at := XorByte(txbuf[at], maskingKey[i % 4])];
          i := i + 1;
        }
      }
    }

    /** sendOnSocket: goes on until the buffer is empty or the socket wishes to wait or fails; what it
        does not take stays in the buffer, in order. */
    method SendOnSocket(link: Outgoing) returns (ok: bool)
      modifies this`txbuf, this`readyState, link
      ensures link.sent + txbuf == old(link.sent + txbuf)
      ensures readyState == if ok || old(readyState) == Closing then old(readyState) else Closed
      ensures old(link.sent) <= link.sent
      ensures old(link.answers) <= link.answers && BytesUntilLast(link.answers, |old(link.answers)|)
      ensures ok <==> NoFailure(link.answers, |old(link.answers)|)
      ensures old(txbuf) != [] ==> |link.answers| > |old(link.answers)|
      ensures ok ==> txbuf == [] || (link.answers != [] && link.answers[|link.answers| - 1] == Wait)
    {
      while txbuf != []
        invariant link.sent + txbuf == old(link.sent + txbuf)
        invariant readyState == old(readyState)
        invariant old(link.sent) <= link.sent && old(link.answers) <= link.answers
        invariant forall i | |old(link.answers)| <= i < |link.answers| :: link.answers[i].Took?
        invariant txbuf != old(txbuf) ==> |link.answers| > |old(link.answers)|
        decreases |txbuf|
      {
        var ret, waitNeeded := link.Send(txbuf);
        if ret < 0 && waitNeeded {
          break;
        } else if ret <= 0 {
          if readyState != Closing {
            readyState := Closed;
          }
          assert link.answers[|link.answers| - 1] == Fail;
          return false;
        } else {
          txbuf := txbuf[ret..];
        }
      }
      return true;
    }

    /** flushSendBuffer: asks until the buffer is empty, an error or a cancellation; ready holds what
        isReadyToWrite answers, one round after the other, until the cancellation. */
    method FlushSendBuffer(link: Outgoing, ready: seq<Readiness>) returns (ok: bool)
      modifies this`txbuf, this`readyState, link
      ensures link.sent + txbuf == old(link.sent + txbuf)
      ensures old(link.sent) <= link.sent && old(link.answers) <= link.answers
      ensures ok ==> NoFailure(link.answers, |old(link.answers)|) && readyState == old(readyState)
      ensures readyState == old(readyState) || readyState == Closed
      ensures old(readyState) == Open ==> (ok <==> readyState == Open)
      ensures ok ==> txbuf == [] || forall r | r in ready :: r != ReadyError
      ensures !ok ==> !NoFailure(link.answers, |old(link.answers)|) || ReadyError in ready
      ensures ok && old(txbuf) != [] && ReadyForWrite in ready ==> |link.answers| > |old(link.answers)|
      ensures ok ==> txbuf == [] || (link.answers == old(link.answers) && txbuf == old(txbuf))
                     || (link.answers != [] && link.answers[|link.answers| - 1] == Wait)
    {
      var i := 0;
      while txbuf != [] && i < |ready|
        decreases |ready| - i
        invariant i <= |ready| && link.sent + txbuf == old(link.sent + txbuf)
        invariant old(link.sent) <= link.sent
        invariant old(link.answers) <= link.answers && NoFailure(link.answers, |old(link.answers)|)
        invariant readyState == old(readyState)
        invariant forall j | 0 <= j < i :: ready[j] != ReadyError
        invariant old(txbuf) != [] && ReadyForWrite in ready[..i] ==> |link.answers| > |old(link.answers)|
        invariant txbuf != old(txbuf) ==> |link.answers| > |old(link.answers)|
        invariant txbuf == [] || (link.answers == old(link.answers) && txbuf == old(txbuf))
                  || (link.answers != [] && link.answers[|link.answers| - 1] == Wait)
      {
        assert ready[..i + 1] == ready[..i] + [ready[i]];
        if ready[i] == ReadyError {
          readyState := Closed;
          return false;
        } else if ready[i] == ReadyForWrite {
          var sent := SendOnSocket(link);
          if !sent {
            return false;
          }
        }
        i := i + 1;
      }
      assert i == |ready| ==> ready[..i] == ready;
      ok := true;
    }

    /** The header of a frame, written byte by byte. */
    method MakeHeader(opcode: nat, fin: bool, messageSize: nat, maskingKey: Key) returns (header: Bytes)
      requires opcode < 16 && messageSize < 0x1_0000_0000_0000_0000
      ensures forall payload: Bytes | |payload| == messageSize ::
        header == Header(Frame(fin, opcode, if useMask then Some(maskingKey) else None, payload))
    {
      hide Shr, Header, BigEndian;
      var size := 2 + (if messageSize >= 126 then 2 else 0) + (if messageSize >= 65536 then 6 else 0)
        + (if useMask then 4 else 0);
      header := seq(size, _ => 0);
      header := header[0 := opcode];
      if fin {
        header := header[0 := header[0] + 0x80];
      }
      var mask: nat := if useMask then 0x80 else 0;
      if messageSize < 126 {
        header := header[1 := messageSize + mask];
        if useMask {
          header := header[2 := maskingKey[0]][3 := maskingKey[1]][4 := maskingKey[2]][5 := maskingKey[3]];
        }
      } else if messageSize < 65536 {
        header := header[1 := 126 + mask];
        header := header[2 := Shr(messageSize, 8) % 256][3 := messageSize % 256];
        if useMask {
          header := header[4 := maskingKey[0]][5 := maskingKey[1]][6 := maskingKey[2]][7 := maskingKey[3]];
        }
      } else {
        header := header[1 := 127 + mask];
        header := header[2 := Shr(messageSize, 56) % 256][3 := Shr(messageSize, 48) % 256];
        header := header[4 := Shr(messageSize, 40) % 256][5 := Shr(messageSize, 32) % 256];
        header := header[6 := Shr(messageSize, 24) % 256][7 := Shr(messageSize, 16) % 256];
        header := header[8 := Shr(messageSize, 8) % 256][9 := messageSize % 256];
        if useMask {
          header := header[10 := maskingKey[0]][11 := maskingKey[1]][12 := maskingKey[2]][13 := maskingKey[3]];
        }
      }
      HeaderBytes(opcode, fin, messageSize, if useMask then Some(maskingKey) else None, header);
    }

    /** sendFragment: one frame is added to what is sent or waiting to be sent. */
    method SendFragment(link: Outgoing, opcode: nat, fin: bool, message: Bytes, maskingKey: Key) returns (ok: bool)
      requires opcode < 16 && |message| < 0x1_0000_0000_0000_0000
      modifies this`txbuf, this`readyState, link
      ensures link.sent + txbuf == old(link.sent + txbuf)
                + EncodeFrame(Frame(fin, opcode, if useMask then Some(maskingKey) else None, message))
      ensures readyState == if ok || old(readyState) == Closing then old(readyState) else Closed
      ensures old(link.sent) <= link.sent
      ensures old(link.answers) < link.answers && BytesUntilLast(link.answers, |old(link.answers)|)
      ensures ok <==> NoFailure(link.answers, |old(link.answers)|)
      ensures ok ==> txbuf == [] || link.answers[|link.answers| - 1] == Wait
    {
      hide Header, Masked;
      var header := MakeHeader(opcode, fin, |message|, maskingKey);
      AppendToSendBuffer(header, message, maskingKey);
      ok := SendOnSocket(link);
    }

    /** The body of the loop of sendData: fragment i. */
    method SendStep(link: Outgoing, opcode: nat, message: Bytes, keys: nat -> Key, i: nat) returns (ok: bool)
      requires opcode < 16 && |message| < 0x1_0000_0000_0000_0000 && i < FragmentCount(|message|)
      modifies this`txbuf, this`readyState, link
      ensures link.sent + txbuf == old(link.sent + txbuf)
                + EncodeFrame(FragmentAt(opcode, message, useMask, keys, i))
      ensures readyState == if ok || old(readyState) == Closing then old(readyState) else Closed
      ensures old(link.sent) <= link.sent && old(link.answers) < link.answers
      ensures ok <==> NoFailure(link.answers, |old(link.answers)|)
      ensures ok ==> txbuf == [] || link.answers[|link.answers| - 1] == Wait
    {
      hide EncodeFrame;
      var begin := i * CHUNK_SIZE;
      var lastStep := i + 1 == FragmentCount(|message|);
      var end := begin + CHUNK_SIZE;
      if lastStep {
        end := |message|;
      }
      var opcodeType := opcode;
      if i != 0 {
        opcodeType := CONTINUATION;
      }
      ok := SendFragment(link, opcodeType, lastStep, message[begin..end], keys(i));
    }

    /** The fragments of a large message, until the socket fails or the progress callback refuses. */
    method SendSteps(link: Outgoing, opcode: nat, message: Bytes, keys: nat -> Key, progress: Option<Progress>)
      returns (success: bool, ghost count: nat)
      requires opcode < 16 && CHUNK_SIZE <= |message| < 0x1_0000_0000_0000_0000
      modifies this`txbuf, this`readyState, link
      ensures 0 < count <= FragmentCount(|message|)
      ensures link.sent + txbuf == old(link.sent + txbuf)
                + EncodeFrames(Fragments(opcode, message, useMask, keys)[..count])
      ensures readyState == if success || old(readyState) == Closing then old(readyState) else Closed
      ensures old(link.sent) <= link.sent
      ensures old(link.answers) < link.answers && (success <==> NoFailure(link.answers, |old(link.answers)|))
      ensures success ==> txbuf == [] || link.answers[|link.answers| - 1] == Wait
      ensures Agrees(progress, FragmentCount(|message|), count - 1)
      ensures success && count < FragmentCount(|message|) ==> !Agrees(progress, FragmentCount(|message|), count)
    {
      hide EncodeFrame, EncodeFrames, FragmentAt;
      ghost var frames := Fragments(opcode, message, useMask, keys);
      ghost var before := link.sent + txbuf;
      assert frames[..0] == [];
      NoFrames();
      assert before + [] == before;
      FragmentOpcodes(opcode, message, useMask, keys);
      success, count := true, 0;
      var steps := |message| / CHUNK_SIZE;
      for i := 0 to steps
        invariant count == i && success && readyState == old(readyState)
        invariant Agrees(progress, steps, i)
        invariant link.sent + txbuf == before + EncodeFrames(frames[..count])
        invariant old(link.sent) <= link.sent
        invariant old(link.answers) <= link.answers && NoFailure(link.answers, |old(link.answers)|)
        invariant i > 0 ==> old(link.answers) < link.answers
        invariant i > 0 ==> txbuf == [] || link.answers[|link.answers| - 1] == Wait
      {
        ghost var asked := link.answers;
        var sent := SendStep(link, opcode, message, keys, i);
        Extend(frames, before, i);
        FailuresAdd(asked, link.answers, |old(link.answers)|);
        count := i + 1;
        if !sent {
          return false, count;
        }
        if progress.Some? {
          var more := progress.value(i, steps);
          if !more {
            break;
          }
        }
      }
    }

    /** sendData without compression. The fragments are handed over in order; what the socket did not take
        is flushed if sending is blocking, ready being the answers of isReadyToWrite then. It succeeds exactly
        when the connection was open or closing and neither the socket nor the wait for it failed, and then
        the message is complete exactly when the progress callback refused nothing before the last fragment. */
    method SendData(link: Outgoing, opcode: nat, message: Bytes, keys: nat -> Key, progress: Option<Progress>,
                    ready: seq<Readiness>)
      returns (success: bool, ghost count: nat)
      requires opcode < 16 && |message| < 0x1_0000_0000_0000_0000
      modifies this`txbuf, this`readyState, link
      ensures count <= FragmentCount(|message|)
      ensures link.sent + txbuf == old(link.sent + txbuf)
                + EncodeFrames(Fragments(opcode, message, useMask, keys)[..count])
      ensures old(readyState) != Open && old(readyState) != Closing ==>
                !success && count == 0 && link.answers == old(link.answers)
      ensures old(link.sent) <= link.sent && old(link.answers) <= link.answers
      ensures old(readyState) == Open || old(readyState) == Closing ==> count > 0 && old(link.answers) < link.answers
      ensures success ==> NoFailure(link.answers, |old(link.answers)|)
      ensures (old(readyState) == Open || old(readyState) == Closing) && !success ==>
                !NoFailure(link.answers, |old(link.answers)|) || (blockingSend && ReadyError in ready)
      ensures old(readyState) == Open ==> (success <==> readyState == Open)
      ensures success ==> txbuf == [] || link.answers[|link.answers| - 1] == Wait
      ensures success ==>
                (count == FragmentCount(|message|) <==>
                  Agrees(progress, FragmentCount(|message|), FragmentCount(|message|) - 1))
      ensures count > 0 ==> Agrees(progress, FragmentCount(|message|), count - 1)
    {
      hide EncodeFrame, EncodeFrames, FragmentAt;
      ghost var frames := Fragments(opcode, message, useMask, keys);
      ghost var before := link.sent + txbuf;
      if readyState != Open && readyState != Closing {
        NoFrames();
        assert frames[..0] == [] && before + [] == before;
        return false, 0;
      }
      if |message| < CHUNK_SIZE {
        success := SendFragment(link, opcode, true, message, keys(0));
        count := 1;
        OneFragment(opcode, message, useMask, keys);
      } else {
        success, count := SendSteps(link, opcode, message, keys, progress);
        if !success {
          return;
        }
      }
      if txbuf != [] && blockingSend {
        ghost var asked := link.answers;
        var flushed := FlushSendBuffer(link, ready);
        FailuresAddEither(asked, link.answers, |old(link.answers)|);
        if !flushed {
          success := false;
        }
      }
    }
  }

  /** The progress callback: the index of a fragment and the number of them; false to stop. */
  type Progress = (nat, nat) -> bool

  /** It accepts the first n of so many fragments. */
  ghost predicate Agrees(progress: Option<Progress>, steps: nat, n: nat) {
    progress.Some? ==> forall j: nat | j < n :: progress.value(j, steps)
  }

  /** A progress callback that refuses at once: half of a message of 65536 bytes is reported as a success
      whenever the socket does not fail. */
  method CutShort(link: Outgoing) returns (success: bool, ghost count: nat)
    modifies link
    ensures old(link.sent) <= link.sent && old(link.answers) <= link.answers
    ensures success <==> NoFailure(link.answers, |old(link.answers)|)
    ensures FragmentCount(65536) == 2 && count == 1
  {
    var s := new Sender(true, false);
    var refuse := (i: nat, steps: nat) => false;
    success, count := s.SendData(link, BINARY_FRAME, seq(65536, _ => 0), _ => [0, 0, 0, 0], Some(refuse), []);
    assert !refuse(0, 2);
  }

  /** A small message is one frame. */
  lemma OneFragment(opcode: nat, message: Bytes, useMask: bool, keys: nat -> Key)
    requires opcode < 16 && |message| < CHUNK_SIZE
    ensures FragmentCount(|message|) == 1
    ensures EncodeFrames(Fragments(opcode, message, useMask, keys)[..1])
         == EncodeFrame(Frame(true, opcode, if useMask then Some(keys(0)) else None, message))
  {
    hide EncodeFrame;
    var frames := Fragments(opcode, message, useMask, keys);
    assert message[0..|message|] == message;
    assert frames[..1] == [frames[0]] && [frames[0]][1..] == [];
    assert EncodeFrame(frames[0]) + [] == EncodeFrame(frames[0]);
  }

  lemma FragmentOpcodes(opcode: nat, message: Bytes, useMask: bool, keys: nat -> Key)
    requires opcode < 16
    ensures forall f | f in Fragments(opcode, message, useMask, keys) :: f.opcode < 16
  {
  }

  lemma NoFrames()
    ensures EncodeFrames([]) == []
  {
  }

  lemma Extend(frames: seq<Frame>, before: Bytes, i: nat)
    requires i < |frames| && forall f | f in frames :: f.opcode < 16
    ensures before + EncodeFrames(frames[..i]) + EncodeFrame(frames[i]) == before + EncodeFrames(frames[..i + 1])
  {
    hide EncodeFrame, EncodeFrames;
    assert frames[..i + 1] == frames[..i] + [frames[i]];
    EncodeFramesSnoc(frames[..i], frames[i]);
    assert before + EncodeFrames(frames[..i]) + EncodeFrame(frames[i])
        == before + (EncodeFrames(frames[..i]) + EncodeFrame(frames[i]));
  }

  lemma ShrEight(n: nat, k: nat)
    ensures Shr(n, k + 8) == Shr(n / 256, k)
  {
    assert Shr(n, k + 8) == Shr(n / 2, k + 7) == Shr(n / 2 / 2, k + 6) == Shr(n / 2 / 2 / 2, k + 5);
    assert n / 2 / 2 / 2 / 2 == n / 16;
    assert Shr(n / 16, k + 4) == Shr(n / 16 / 2, k + 3) == Shr(n / 16 / 2 / 2, k + 2) == Shr(n / 16 / 2 / 2 / 2, k + 1);
  }

  /** The bytes of a length are its right shifts. */
  lemma {:induction false} BigEndianAt(n: nat, k: nat, i: nat)
    requires i < k
    ensures BigEndian(n, k)[i] == Shr(n, 8 * (k - 1 - i)) % 256
  {
    if i < k - 1 {
      BigEndianAt(n / 256, k - 1, i);
      ShrEight(n, 8 * (k - 2 - i));
    }
  }

  lemma LengthBytes(n: nat, header: Bytes)
    requires |header| >= 1 + |LengthField(n)|
    requires 126 <= n < 65536 ==> header[2] == Shr(n, 8) % 256 && header[3] == n % 256
    requires n >= 65536 ==> (
               && header[2] == Shr(n, 56) % 256 && header[3] == Shr(n, 48) % 256
               && header[4] == Shr(n, 40) % 256 && header[5] == Shr(n, 32) % 256
               && header[6] == Shr(n, 24) % 256 && header[7] == Shr(n, 16) % 256
               && header[8] == Shr(n, 8) % 256 && header[9] == n % 256)
    ensures 1 + |LengthField(n)| >= 2 && header[2..1 + |LengthField(n)|] == LengthField(n)[1..]
  {
    hide BigEndian, Shr;
    ShrZero(n);
    if 126 <= n < 65536 {
      BigEndianAt(n, 2, 0);
      BigEndianAt(n, 2, 1);
    } else if n >= 65536 {
      BigEndianAt(n, 8, 0);
      BigEndianAt(n, 8, 1);
      BigEndianAt(n, 8, 2);
      BigEndianAt(n, 8, 3);
      BigEndianAt(n, 8, 4);
      BigEndianAt(n, 8, 5);
      BigEndianAt(n, 8, 6);
      BigEndianAt(n, 8, 7);
    }
  }

  lemma HeaderBytes(opcode: nat, fin: bool, n: nat, key: Option<Key>, header: Bytes)
    requires opcode < 16
    requires |header| == 1 + |LengthField(n)| + |KeyBytes(key)|
    requires header[0] == opcode + if fin then 128 else 0
    requires header[1] == LengthField(n)[0] + if key.Some? then 128 else 0
    requires 126 <= n < 65536 ==> header[2] == Shr(n, 8) % 256 && header[3] == n % 256
    requires n >= 65536 ==> (
               && header[2] == Shr(n, 56) % 256 && header[3] == Shr(n, 48) % 256
               && header[4] == Shr(n, 40) % 256 && header[5] == Shr(n, 32) % 256
               && header[6] == Shr(n, 24) % 256 && header[7] == Shr(n, 16) % 256
               && header[8] == Shr(n, 8) % 256 && header[9] == n % 256)
    requires header[1 + |LengthField(n)|..] == KeyBytes(key)
    ensures forall payload: Bytes | |payload| == n :: header == Header(Frame(fin, opcode, key, payload))
  {
    hide LengthField, KeyBytes, Shr, Header;
    LengthBytes(n, header);
    HeaderParts(header, 1 + |LengthField(n)|);
    forall payload: Bytes | |payload| == n ensures header == Header(Frame(fin, opcode, key, payload)) {
      HeaderIs(Frame(fin, opcode, key, payload), header);
    }
  }

  lemma HeaderIs(f: Frame, header: Bytes)
    requires f.opcode < 16 && |header| >= 2
    requires header[0] == f.opcode + if f.fin then 128 else 0
    requires header[1] == LengthField(|f.payload|)[0] + if f.key.Some? then 128 else 0
    requires header == [header[0]] + [header[1]] + LengthField(|f.payload|)[1..] + KeyBytes(f.key)
    ensures header == Header(f)
  {
    hide LengthField, KeyBytes;
  }

  lemma HeaderParts(header: Bytes, k: nat)
    requires 2 <= k <= |header|
    ensures header == [header[0]] + [header[1]] + header[2..k] + header[k..]
  {
  }

  lemma ShrZero(n: nat)
    ensures Shr(n, 0) == n
  {
  }
}
