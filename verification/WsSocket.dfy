/** The two ends of a TCP socket as the transport sees them. What the network does is arbitrary;
    what it answered is on record. */
module WebSocketSocket {
  import opened Numbers

  /** kChunkSize, 1 << 15: the length of a fragment, of _readbuf, and the limit on _rxbuf while no frame is
      awaited. */
  const CHUNK_SIZE: nat := 32768

  /** What send or recv answered: a number of bytes, a wish to be asked again later, or an error
      or the end of the connection. */
  datatype Answer = Took(n: nat) | Wait | Fail

  /** How the transport reads a return value and isWaitNeeded. */
  function AnswerOf(ret: int, waitNeeded: bool): Answer {
    if ret > 0 then Took(ret) else if ret < 0 && waitNeeded then Wait else Fail
  }

  /** Of the answers after the first n none was an error. */
  ghost predicate NoFailure(answers: seq<Answer>, n: nat) {
    forall i | n <= i < |answers| :: answers[i] != Fail
  }

  /** Of the answers after the first n all but the last gave bytes. */
  ghost predicate BytesUntilLast(answers: seq<Answer>, n: nat) {
    forall i | n <= i < |answers| - 1 :: answers[i].Took?
  }

  lemma NothingFailed(answers: seq<Answer>)
    ensures NoFailure(answers, |answers|)
  {
  }

  /** Later answers are free of errors if both parts of them are. */
  lemma FailuresAdd(was: seq<Answer>, now: seq<Answer>, n: nat)
    requires was <= now && n <= |was| && NoFailure(was, n)
    ensures NoFailure(now, n) <==> NoFailure(now, |was|)
  {
    forall i | n <= i < |was| ensures now[i] != Fail {
      assert now[i] == was[i];
    }
  }

  /** The same, whether or not the first part is free of errors. */
  lemma FailuresAddEither(was: seq<Answer>, now: seq<Answer>, n: nat)
    requires was <= now && n <= |was|
    ensures NoFailure(now, n) <==> NoFailure(was, n) && NoFailure(now, |was|)
  {
    if NoFailure(was, n) {
      FailuresAdd(was, now, n);
    } else {
      var i :| n <= i < |was| && was[i] == Fail;
      assert now[i] == Fail;
    }
  }

  /** The bytes that the socket has accepted, in order. */
  class Outgoing {
    var sent: Bytes
    ghost var answers: seq<Answer>

    constructor ()
      ensures sent == [] && answers == []
    {
      sent, answers := [], [];
    }

    /** send: takes any number of bytes from the front, or wishes to wait, or fails. */
    method Send(data: Bytes) returns (ret: int, waitNeeded: bool)
      requires data != []
      modifies this
      ensures answers == old(answers) + [AnswerOf(ret, waitNeeded)]
      ensures ret > 0 ==> ret <= |data| && sent == old(sent) + data[..ret]
      ensures ret <= 0 ==> sent == old(sent)
    {
      var some: bool := *;
      if some {
        ret :| 0 < ret <= |data|;
        sent, waitNeeded := sent + data[..ret], false;
      } else {
        ret := *;
        if ret > 0 {
          ret := 0;
        }
        waitNeeded := *;
      }
      answers := answers + [AnswerOf(ret, waitNeeded)];
    }
  }

  /** The bytes that the peer has sent and that no recv has returned yet. */
  class Link {
    var incoming: Bytes
    ghost var answers: seq<Answer>

    constructor (bytes: Bytes)
      ensures incoming == bytes && answers == []
    {
      incoming, answers := bytes, [];
    }

    /** recv: any number of the bytes in flight up to max, or a wish to wait, or an error or an end of file. */
    method Recv(max: nat) returns (ret: int, data: Bytes, waitNeeded: bool)
      requires max > 0
      modifies this
      ensures answers == old(answers) + [AnswerOf(ret, waitNeeded)]
      ensures data + incoming == old(incoming)
      ensures ret > 0 ==> |data| == ret <= max
      ensures ret <= 0 ==> data == []
    {
      var some: bool := *;
      if incoming == [] || !some {
        ret := *;
        if ret > 0 {
          ret := 0;
        }
        data, waitNeeded := [], *;
      } else {
        ret :| 0 < ret <= max && ret <= |incoming|;
        data, incoming, waitNeeded := incoming[..ret], incoming[ret..], false;
      }
      answers := answers + [AnswerOf(ret, waitNeeded)];
    }
  }
}
