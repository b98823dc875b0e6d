/** A sender, a network and a receiver: one message from sendData to the callback, with the pings and
    pongs that other threads send meanwhile. */
module WebSocketExchange {
  import opened Numbers
  import opened WebSocketFrame
  import opened WebSocketSocket
  import opened WebSocketReceiver
  import opened WebSocketRoundTrip
  import Sender = WebSocketSender

  /** A ping or a pong of another thread. */
  datatype Beat = Beat(opcode: nat, payload: Bytes, key: Key) {
    predicate Valid() {
      (opcode == PING || opcode == PONG) && |payload| <= 125
    }
  }

  ghost predicate AllValid(beats: seq<Beat>) {
    forall b | b in beats :: b.Valid()
  }

  function BeatFrame(b: Beat, useMask: bool): Frame {
    Frame(true, b.opcode, if useMask then Some(b.key) else None, b.payload)
  }

  function BeatFrames(beats: seq<Beat>, useMask: bool): seq<Frame> {
    seq(|beats|, i requires 0 <= i < |beats| => BeatFrame(beats[i], useMask))
  }

  /** The first n fragments, with beats(i) in front of fragment i. */
  function Interleaved(fragments: seq<Frame>, beats: nat -> seq<Frame>, n: nat): seq<Frame>
    requires n <= |fragments|
  {
    if n == 0 then [] else Interleaved(fragments, beats, n - 1) + beats(n - 1) + [fragments[n - 1]]
  }

  /** All heartbeats in front of the first n fragments. */
  function Together(beats: nat -> seq<Frame>, n: nat): seq<Frame> {
    if n == 0 then [] else Together(beats, n - 1) + beats(n - 1)
  }

  ghost predicate Heartbeat(f: Frame) {
    (f.opcode == PING || f.opcode == PONG) && f.fin && |f.payload| <= 125
  }

  ghost predicate AllHeartbeats(frames: seq<Frame>) {
    forall f | f in frames :: Heartbeat(f)
  }

  lemma {:induction false} DataFramesConcat(a: seq<Frame>, b: seq<Frame>)
    ensures DataFrames(a + b) == DataFrames(a) + DataFrames(b)
    decreases |a|
  {
    hide DataFrames;
    NoReplies(false);
    if a == [] {
      assert a + b == b;
    } else {
      assert (a + b)[1..] == a[1..] + b && (a + b)[0] == a[0];
      DataFramesConcat(a[1..], b);
      DataFramesCons(a);
      DataFramesCons(a + b);
    }
  }

  lemma {:induction false} RepliesConcat(a: seq<Frame>, b: seq<Frame>, pong: bool)
    ensures Replies(a + b, pong) == Replies(a, pong) + Replies(b, pong)
    decreases |a|
  {
    hide Replies;
    if a == [] {
      assert a + b == b;
      NoReplies(pong);
    } else {
      assert (a + b)[1..] == a[1..] + b && (a + b)[0] == a[0];
      RepliesConcat(a[1..], b, pong);
      RepliesCons(a, pong);
      RepliesCons(a + b, pong);
    }
  }

  lemma NoReplies(pong: bool)
    ensures Replies([], pong) == [] && DataFrames([]) == []
  {
  }

  lemma {:induction false} EncodeFramesConcat(a: seq<Frame>, b: seq<Frame>)
    requires forall f | f in a + b :: f.opcode < 16
    ensures (forall f | f in a :: f.opcode < 16) && (forall f | f in b :: f.opcode < 16)
    ensures EncodeFrames(a + b) == EncodeFrames(a) + EncodeFrames(b)
    decreases |a|
  {
    hide EncodeFrame, EncodeFrames;
    assert forall f | f in a :: f in a + b;
    assert forall f | f in b :: f in a + b;
    if a == [] {
      Sender.NoFrames();
      assert a + b == b && [] + EncodeFrames(b) == EncodeFrames(b);
    } else {
      var rest := a[1..];
      assert (a + b)[1..] == rest + b && (a + b)[0] == a[0];
      assert forall f | f in rest + b :: f in a + b;
      EncodeFramesConcat(rest, b);
      EncodeFramesFirst(a);
      EncodeFramesFirst(a + b);
      assert EncodeFrame(a[0]) + (EncodeFrames(rest) + EncodeFrames(b))
          == EncodeFrame(a[0]) + EncodeFrames(rest) + EncodeFrames(b);
    }
  }

  lemma EncodeFramesFirst(frames: seq<Frame>)
    requires frames != [] && forall f | f in frames :: f.opcode < 16
    ensures (forall f | f in frames[1..] :: f.opcode < 16) && frames[0].opcode < 16
    ensures EncodeFrames(frames) == EncodeFrame(frames[0]) + EncodeFrames(frames[1..])
  {
    hide EncodeFrame;
  }

  lemma {:induction false} HeartbeatsHaveNoData(frames: seq<Frame>)
    requires AllHeartbeats(frames)
    ensures DataFrames(frames) == []
    decreases |frames|
  {
    if frames != [] {
      assert frames[0] in frames;
      assert forall f | f in frames[1..] :: f in frames;
      HeartbeatsHaveNoData(frames[1..]);
    }
  }

  lemma OneDataFrame(f: Frame, pong: bool)
    requires IsData(f.opcode)
    ensures DataFrames([f]) == [f] && Replies([f], pong) == []
  {
    assert [f][1..] == [];
  }

  /** Interleaving leaves the fragments in order, and the heartbeats in order. */
  lemma {:induction false} InterleavedParts(fragments: seq<Frame>, beats: nat -> seq<Frame>, n: nat, pong: bool)
    requires n <= |fragments| && forall f | f in fragments :: IsData(f.opcode)
    requires forall i: nat :: AllHeartbeats(beats(i))
    ensures DataFrames(Interleaved(fragments, beats, n)) == fragments[..n]
    ensures Replies(Interleaved(fragments, beats, n), pong) == Replies(Together(beats, n), pong)
  {
    hide Replies, DataFrames, AllHeartbeats, IsData;
    NoReplies(pong);
    if n > 0 {
      InterleavedParts(fragments, beats, n - 1, pong);
      var before, beat, f := Interleaved(fragments, beats, n - 1), beats(n - 1), fragments[n - 1];
      DataFramesConcat(before + beat, [f]);
      DataFramesConcat(before, beat);
      HeartbeatsHaveNoData(beat);
      OneDataFrame(f, pong);
      RepliesConcat(before + beat, [f], pong);
      RepliesConcat(before, beat, pong);
      RepliesConcat(Together(beats, n - 1), beat, pong);
      assert fragments[..n] == fragments[..n - 1] + [f];
    }
  }

  lemma {:induction false} InterleavedFrames(fragments: seq<Frame>, beats: nat -> seq<Frame>, n: nat)
    requires n <= |fragments| && AllDataOrHeartbeat(fragments)
    requires forall i: nat :: AllHeartbeats(beats(i))
    ensures AllDataOrHeartbeat(Interleaved(fragments, beats, n))
  {
    if n > 0 {
      InterleavedFrames(fragments, beats, n - 1);
      forall f | f in Interleaved(fragments, beats, n) ensures DataOrHeartbeat(f) {
        if f in beats(n - 1) {
          assert AllHeartbeats(beats(n - 1)) && Heartbeat(f);
        }
      }
    }
  }

  /** Everything that the sender hands over while it sends a message of n fragments. */
  function Stream(fragments: seq<Frame>, beats: nat -> seq<Frame>): seq<Frame> {
    Interleaved(fragments, beats, |fragments|) + beats(|fragments|)
  }

  lemma StreamFrames(fragments: seq<Frame>, beats: nat -> seq<Frame>, pong: bool)
    requires AllDataOrHeartbeat(fragments) && forall f | f in fragments :: IsData(f.opcode)
    requires forall i: nat :: AllHeartbeats(beats(i))
    ensures AllDataOrHeartbeat(Stream(fragments, beats))
    ensures DataFrames(Stream(fragments, beats)) == fragments
    ensures Replies(Stream(fragments, beats), pong) == Replies(Together(beats, |fragments| + 1), pong)
  {
    hide DataFrames, Replies, IsData;
    var n := |fragments|;
    InterleavedFrames(fragments, beats, n);
    InterleavedParts(fragments, beats, n, pong);
    DataFramesConcat(Interleaved(fragments, beats, n), beats(n));
    HeartbeatsHaveNoData(beats(n));
    RepliesConcat(Interleaved(fragments, beats, n), beats(n), pong);
    RepliesConcat(Together(beats, n), beats(n), pong);
    assert fragments[..n] == fragments && fragments + [] == fragments;
    forall f | f in Stream(fragments, beats) ensures DataOrHeartbeat(f) {
      if f in beats(n) {
        assert AllHeartbeats(beats(n)) && Heartbeat(f);
      }
    }
  }

  lemma FragmentsAreData(opcode: nat, message: Bytes, useMask: bool, keys: nat -> Key)
    requires opcode == TEXT_FRAME || opcode == BINARY_FRAME
    ensures var fragments := Sender.Fragments(opcode, message, useMask, keys);
            AllDataOrHeartbeat(fragments) && forall f | f in fragments :: IsData(f.opcode)
  {
  }

  /** sendPing and the pong replies of other threads: whole frames, one after the other. */
  method HandOver(s: Sender.Sender, out: Outgoing, beats: seq<Beat>) returns (ok: bool, ghost handed: seq<Frame>)
    requires AllValid(beats)
    modifies s`txbuf, s`readyState, out
    ensures handed <= BeatFrames(beats, s.useMask) && forall f | f in handed :: f.opcode < 16
    ensures out.sent + s.txbuf == old(out.sent + s.txbuf) + EncodeFrames(handed)
    ensures old(out.sent) <= out.sent && old(out.answers) <= out.answers
    ensures ok <==> NoFailure(out.answers, |old(out.answers)|)
    ensures ok ==> handed == BeatFrames(beats, s.useMask)
    ensures ok ==> s.txbuf == [] || (out.answers == old(out.answers) && s.txbuf == old(s.txbuf))
                   || (out.answers != [] && out.answers[|out.answers| - 1] == Wait)
  {
    hide EncodeFrame, EncodeFrames;
    ghost var all, before := BeatFrames(beats, s.useMask), out.sent + s.txbuf;
    ok, handed := true, [];
    Sender.NoFrames();
    assert before + [] == before;
    for i := 0 to |beats|
      invariant ok && handed == all[..i] && forall f | f in handed :: f.opcode < 16
      invariant out.sent + s.txbuf == before + EncodeFrames(handed)
      invariant old(out.sent) <= out.sent
      invariant old(out.answers) <= out.answers && NoFailure(out.answers, |old(out.answers)|)
      invariant s.txbuf == [] || (out.answers == old(out.answers) && s.txbuf == old(s.txbuf))
                || (out.answers != [] && out.answers[|out.answers| - 1] == Wait)
    {
      var b := beats[i];
      assert b.Valid();
      ghost var asked := out.answers;
      ok := s.SendFragment(out, b.opcode, true, b.payload, b.key);
      EncodeFramesSnoc(handed, BeatFrame(b, s.useMask));
      FailuresAdd(asked, out.answers, |old(out.answers)|);
      assert all[..i + 1] == all[..i] + [BeatFrame(b, s.useMask)];
      assert before + (EncodeFrames(handed) + EncodeFrame(BeatFrame(b, s.useMask)))
          == before + EncodeFrames(handed) + EncodeFrame(BeatFrame(b, s.useMask));
      handed := handed + [BeatFrame(b, s.useMask)];
      if !ok {
        return;
      }
    }
  }

  /** A message as a caller hands it over: its kind, its bytes, the masking keys of its fragments, and the
      heartbeats that other threads send in front of each fragment and after the last. */
  datatype Post = Post(opcode: nat, message: Bytes, keys: nat -> Key, beats: nat -> seq<Beat>) {
    ghost predicate Valid() {
      && (opcode == TEXT_FRAME || opcode == BINARY_FRAME)
      && |message| < 0x1_0000_0000_0000_0000 && forall i: nat :: AllValid(beats(i))
    }
  }

  function PostFragments(p: Post, useMask: bool): seq<Frame> {
    Sender.Fragments(p.opcode, p.message, useMask, p.keys)
  }

  /** Everything that the sender hands over while it sends a message. */
  function PostStream(p: Post, useMask: bool): seq<Frame> {
    Stream(PostFragments(p, useMask), FramesOf(p.beats, useMask))
  }

  /** The heartbeats among it. */
  function PostBeats(p: Post, useMask: bool): seq<Frame> {
    Together(FramesOf(p.beats, useMask), Sender.FragmentCount(|p.message|) + 1)
  }

  /** The heartbeats as frames. */
  function FramesOf(beats: nat -> seq<Beat>, useMask: bool): nat -> seq<Frame> {
    (i: nat) => BeatFrames(beats(i), useMask)
  }

  lemma BeatsAreHeartbeats(beats: nat -> seq<Beat>, useMask: bool)
    requires forall i: nat :: AllValid(beats(i))
    ensures forall i: nat :: AllHeartbeats(FramesOf(beats, useMask)(i))
  {
    forall i: nat ensures AllHeartbeats(FramesOf(beats, useMask)(i)) {
      forall f | f in FramesOf(beats, useMask)(i) ensures Heartbeat(f) {
        var j :| 0 <= j < |beats(i)| && f == BeatFrame(beats(i)[j], useMask);
        assert AllValid(beats(i)) && beats(i)[j] in beats(i);
      }
    }
  }

  /** What has been handed over by step i is the beginning of the stream. */
  lemma {:induction false} InterleavedPrefix(fragments: seq<Frame>, beats: nat -> seq<Frame>, i: nat, n: nat)
    requires i <= n <= |fragments|
    ensures Interleaved(fragments, beats, i) + beats(i) <= Interleaved(fragments, beats, n) + beats(n)
    decreases n - i
  {
    if i < n {
      InterleavedPrefix(fragments, beats, i + 1, n);
      var a, b := Interleaved(fragments, beats, i) + beats(i), Interleaved(fragments, beats, i + 1);
      assert a <= b && b <= b + beats(i + 1);
    }
  }

  lemma PrefixOfSum(a: seq<Frame>, part: seq<Frame>, b: seq<Frame>, all: seq<Frame>)
    requires part <= b && a + b <= all
    ensures a + part <= all
  {
    assert a + part <= a + b;
  }

  /** Heartbeats of the polling thread, then fragment i of a message. */
  method SendOne(s: Sender.Sender, out: Outgoing, opcode: nat, message: Bytes, keys: nat -> Key, beats: seq<Beat>,
                 i: nat) returns (ok: bool, ghost handed: seq<Frame>)
    requires opcode == TEXT_FRAME || opcode == BINARY_FRAME
    requires |message| < 0x1_0000_0000_0000_0000 && i < Sender.FragmentCount(|message|) && AllValid(beats)
    modifies s`txbuf, s`readyState, out
    ensures var all := BeatFrames(beats, s.useMask) + [Sender.FragmentAt(opcode, message, s.useMask, keys, i)];
            handed <= all && (ok ==> handed == all)
    ensures forall f | f in handed :: f.opcode < 16
    ensures out.sent + s.txbuf == old(out.sent + s.txbuf) + EncodeFrames(handed)
    ensures old(out.sent) <= out.sent && old(out.answers) <= out.answers
    ensures ok <==> NoFailure(out.answers, |old(out.answers)|)
    ensures ok ==> s.txbuf == [] || (out.answers != [] && out.answers[|out.answers| - 1] == Wait)
  {
    hide EncodeFrame, EncodeFrames, Sender.FragmentAt, BeatFrames, AllValid;
    ghost var before := out.sent + s.txbuf;
    ok, handed := HandOver(s, out, beats);
    if !ok {
      PrefixOfSum([], handed, BeatFrames(beats, s.useMask), BeatFrames(beats, s.useMask));
      return;
    }
    ghost var asked := out.answers;
    ok := s.SendStep(out, opcode, message, keys, i);
    FailuresAdd(asked, out.answers, |old(out.answers)|);
    ghost var f := Sender.FragmentAt(opcode, message, s.useMask, keys, i);
    FragmentOpcode(opcode, message, s.useMask, keys, i);
    EncodeFramesSnoc(handed, f);
    assert before + (EncodeFrames(handed) + EncodeFrame(f)) == before + EncodeFrames(handed) + EncodeFrame(f);
    handed := handed + [f];
  }

  /** sendData, fragment by fragment, while the polling thread hands over heartbeats in between:
      _txbufMutex is not held from one frame to the next. */
  method SendInterleaved(s: Sender.Sender, out: Outgoing, p: Post) returns (ok: bool, ghost frames: seq<Frame>)
    requires p.Valid()
    modifies s`txbuf, s`readyState, out
    ensures frames <= PostStream(p, s.useMask) && (ok ==> frames == PostStream(p, s.useMask))
    ensures forall f | f in frames :: f.opcode < 16
    ensures out.sent + s.txbuf == old(out.sent + s.txbuf) + EncodeFrames(frames)
    ensures old(out.sent) <= out.sent && old(out.answers) <= out.answers
    ensures ok <==> NoFailure(out.answers, |old(out.answers)|)
    ensures ok ==> s.txbuf == [] || (out.answers != [] && out.answers[|out.answers| - 1] == Wait)
  {
    hide EncodeFrame, EncodeFrames, Interleaved, Sender.FragmentAt, BeatFrames, FramesOf, AllValid, NoFailure;
    NothingFailed(out.answers);
    ghost var fragments, fb := PostFragments(p, s.useMask), FramesOf(p.beats, s.useMask);
    ghost var before := out.sent + s.txbuf;
    var n := Sender.FragmentCount(|p.message|);
    ok, frames := true, [];
    Sender.NoFrames();
    NothingInterleaved(fragments, fb);
    assert before + [] == before;
    ghost var asked, handed;
    for i := 0 to n
      invariant ok && frames == Interleaved(fragments, fb, i) && forall f | f in frames :: f.opcode < 16
      invariant out.sent + s.txbuf == before + EncodeFrames(frames)
      invariant old(out.sent) <= out.sent
      invariant old(out.answers) <= out.answers && NoFailure(out.answers, |old(out.answers)|)
      invariant i > 0 ==> s.txbuf == [] || (out.answers != [] && out.answers[|out.answers| - 1] == Wait)
    {
      asked := out.answers;
      ok, handed := SendOne(s, out, p.opcode, p.message, p.keys, p.beats(i), i);
      Handed(before, frames, handed, out.sent + s.txbuf);
      FailuresAdd(asked, out.answers, |old(out.answers)|);
      BeatFramesAt(p.beats, s.useMask, i);
      InterleavedStep(fragments, fb, i);
      InterleavedPrefix(fragments, fb, i + 1, n);
      PrefixOfStream(frames, handed, fb(i) + [fragments[i]], fb(i + 1), PostStream(p, s.useMask));
      frames := frames + handed;
      if !ok {
        return;
      }
    }
    asked := out.answers;
    ok, handed := HandOver(s, out, p.beats(n));
    Handed(before, frames, handed, out.sent + s.txbuf);
    FailuresAdd(asked, out.answers, |old(out.answers)|);
    BeatFramesAt(p.beats, s.useMask, n);
    PrefixOfSum(frames, handed, fb(n), PostStream(p, s.useMask));
    frames := frames + handed;
  }

  lemma PrefixOfStream(a: seq<Frame>, part: seq<Frame>, b: seq<Frame>, c: seq<Frame>, all: seq<Frame>)
    requires part <= b && a + b + c <= all
    ensures a + part <= all
  {
    assert a + part <= a + b <= a + b + c;
  }

  lemma NothingInterleaved(fragments: seq<Frame>, beats: nat -> seq<Frame>)
    ensures Interleaved(fragments, beats, 0) == []
  {
  }

  lemma InterleavedStep(fragments: seq<Frame>, beats: nat -> seq<Frame>, i: nat)
    requires i < |fragments|
    ensures Interleaved(fragments, beats, i + 1) == Interleaved(fragments, beats, i) + beats(i) + [fragments[i]]
  {
  }

  lemma BeatFramesAt(beats: nat -> seq<Beat>, useMask: bool, i: nat)
    ensures FramesOf(beats, useMask)(i) == BeatFrames(beats(i), useMask)
  {
  }

  lemma FragmentOpcode(opcode: nat, message: Bytes, useMask: bool, keys: nat -> Key, i: nat)
    requires opcode < 16 && i < Sender.FragmentCount(|message|)
    ensures Sender.FragmentAt(opcode, message, useMask, keys, i).opcode < 16
  {
  }

  lemma Handed(before: Bytes, frames: seq<Frame>, handed: seq<Frame>, now: Bytes)
    requires (forall f | f in frames :: f.opcode < 16) && (forall f | f in handed :: f.opcode < 16)
    requires now == before + EncodeFrames(frames) + EncodeFrames(handed)
    ensures forall f | f in frames + handed :: f.opcode < 16
    ensures now == before + EncodeFrames(frames + handed)
  {
    hide EncodeFrames;
    OpcodesConcat(frames, handed);
    EncodeFramesConcat(frames, handed);
    assert before + (EncodeFrames(frames) + EncodeFrames(handed))
        == before + EncodeFrames(frames) + EncodeFrames(handed);
  }

  lemma OpcodesConcat(a: seq<Frame>, b: seq<Frame>)
    requires (forall f | f in a :: f.opcode < 16) && (forall f | f in b :: f.opcode < 16)
    ensures forall f | f in a + b :: f.opcode < 16
  {
    forall f | f in a + b ensures f.opcode < 16 {
      assert f in a || f in b;
    }
  }

  lemma StreamAcceptable(p: Post, useMask: bool)
    requires p.Valid()
    ensures AllAcceptable(PostStream(p, useMask))
  {
    hide DataFrames, AllValid, FramesOf, Sender.FragmentAt;
    var fragments, fb := PostFragments(p, useMask), FramesOf(p.beats, useMask);
    FragmentsAreData(p.opcode, p.message, useMask, p.keys);
    BeatsAreHeartbeats(p.beats, useMask);
    StreamFrames(fragments, fb, false);
    var stream := PostStream(p, useMask);
    forall f | f in stream ensures Acceptable(f) {
      assert DataOrHeartbeat(f);
      if IsData(f.opcode) {
        InDataFrames(stream, f);
        FragmentIsShort(p.opcode, p.message, useMask, p.keys, f);
      }
    }
  }

  /** The stream of one message, once it has arrived: one delivery of the message, the heartbeats in order,
      and the receiver ready for the next message. */
  lemma StreamDelivered(p: Post, useMask: bool, a: Assembly, pong: bool)
    requires p.Valid() && a.chunks == []
    ensures AllAcceptable(PostStream(p, useMask))
    ensures var t := AllTurns(Rx(EncodeFrames(PostStream(p, useMask)), 0, a), pong);
            && t.rx == Rx([], 0, t.rx.assembly) && t.rx.assembly.chunks == [] && t.flow == NoHeader
            && Outcomes(t.events) == Verdict(p.opcode, p.message)
            && Heartbeats(t.events) == Replies(PostBeats(p, useMask), pong)
  {
    hide AllTurns, Fragmentation, Acceptable, Outcomes, Heartbeats, Replies, DataFrames, FramesOf, AllValid, Together,
         Interleaved, Sender.FragmentAt;
    var fragments, fb := PostFragments(p, useMask), FramesOf(p.beats, useMask);
    StreamAcceptable(p, useMask);
    FragmentsAreData(p.opcode, p.message, useMask, p.keys);
    BeatsAreHeartbeats(p.beats, useMask);
    StreamFrames(fragments, fb, pong);
    SentIsFragmentation(p.opcode, p.message, useMask, p.keys);
    PingsOnly(PostStream(p, useMask));
    MessageDelivered(PostStream(p, useMask), p.opcode, p.message, a, pong);
  }

  lemma PingsOnly(frames: seq<Frame>)
    requires AllDataOrHeartbeat(frames)
    ensures PingsBetween(frames)
  {
    forall f | f in frames ensures IsData(f.opcode) || f.opcode == PING || f.opcode == PONG {
      assert DataOrHeartbeat(f);
    }
  }

  // ----- Any number of messages.

  /** The frames of the messages, one after the other. */
  function Streams(posts: seq<Post>, useMask: bool): seq<Frame>
    decreases |posts|
  {
    if posts == [] then [] else Streams(posts[..|posts| - 1], useMask) + PostStream(posts[|posts| - 1], useMask)
  }

  /** All heartbeats before, within and after them. */
  function StreamBeats(posts: seq<Post>, useMask: bool): seq<Frame>
    decreases |posts|
  {
    if posts == [] then [] else StreamBeats(posts[..|posts| - 1], useMask) + PostBeats(posts[|posts| - 1], useMask)
  }

  /** One delivery for each message, or refusal, in order. */
  ghost function Verdicts(posts: seq<Post>): seq<Event>
    decreases |posts|
  {
    if posts == [] then []
    else Verdicts(posts[..|posts| - 1]) + Verdict(posts[|posts| - 1].opcode, posts[|posts| - 1].message)
  }

  lemma StreamsSnoc(posts: seq<Post>, useMask: bool)
    requires posts != []
    ensures var n := |posts| - 1;
            && Streams(posts, useMask) == Streams(posts[..n], useMask) + PostStream(posts[n], useMask)
            && StreamBeats(posts, useMask) == StreamBeats(posts[..n], useMask) + PostBeats(posts[n], useMask)
            && Verdicts(posts) == Verdicts(posts[..n]) + Verdict(posts[n].opcode, posts[n].message)
  {
  }

  lemma NoStreams(useMask: bool, a: Assembly, pong: bool)
    ensures Streams([], useMask) == [] && StreamBeats([], useMask) == [] && Verdicts([]) == []
    ensures EncodeFrames([]) == [] && Outcomes([]) == [] && Heartbeats([]) == [] && Replies([], pong) == []
    ensures AllTurns(Rx([], 0, a), pong) == Turn(Rx([], 0, a), [], NoHeader)
  {
    HeaderIncomplete(a, pong);
  }

  lemma AcceptableConcat(a: seq<Frame>, b: seq<Frame>)
    requires AllAcceptable(a) && AllAcceptable(b)
    ensures AllAcceptable(a + b) && forall f | f in a + b :: f.opcode < 16
  {
    forall f | f in a + b ensures Acceptable(f) {
      assert f in a || f in b;
    }
  }

  lemma AcceptableOpcodes(a: seq<Frame>)
    requires AllAcceptable(a)
    ensures forall f | f in a :: f.opcode < 16
  {
  }

  /** Dispatching the frames of one more message. */
  lemma OneMoreStream(before: seq<Frame>, p: Post, useMask: bool, a: Assembly, pong: bool)
    requires p.Valid() && AllAcceptable(before)
    requires var t := AllTurns(Rx(EncodeFrames(before), 0, a), pong);
             t.rx == Rx([], 0, t.rx.assembly) && t.rx.assembly.chunks == [] && t.flow == NoHeader
    ensures AllAcceptable(before + PostStream(p, useMask))
    ensures var t := AllTurns(Rx(EncodeFrames(before), 0, a), pong);
            var u := AllTurns(Rx(EncodeFrames(before + PostStream(p, useMask)), 0, a), pong);
            && u.rx == Rx([], 0, u.rx.assembly) && u.rx.assembly.chunks == [] && u.flow == NoHeader
            && Outcomes(u.events) == Outcomes(t.events) + Verdict(p.opcode, p.message)
            && Heartbeats(u.events) == Heartbeats(t.events) + Replies(PostBeats(p, useMask), pong)
  {
    hide AllTurns, Outcomes, Heartbeats, Replies, PostStream, PostBeats, Acceptable, EncodeFrames, Post.Valid;
    var stream := PostStream(p, useMask);
    var t := AllTurns(Rx(EncodeFrames(before), 0, a), pong);
    StreamDelivered(p, useMask, t.rx.assembly, pong);
    AcceptableConcat(before, stream);
    EncodeFramesConcat(before, stream);
    var u := AllTurns(Rx(EncodeFrames(stream), 0, t.rx.assembly), pong);
    RunAppend(Rx(EncodeFrames(before), 0, a), EncodeFrames(stream), pong);
    assert [] + EncodeFrames(stream) == EncodeFrames(stream);
    FiltersConcat(t.events, u.events);
  }

  /** Any number of messages, with heartbeats between and within them, from any state between messages:
      each is delivered once and unchanged, or refused, in order, and so are the heartbeats. */
  lemma {:induction false} StreamsDelivered(posts: seq<Post>, useMask: bool, a: Assembly, pong: bool)
    requires (forall p | p in posts :: p.Valid()) && a.chunks == []
    ensures AllAcceptable(Streams(posts, useMask))
    ensures var t := AllTurns(Rx(EncodeFrames(Streams(posts, useMask)), 0, a), pong);
            && t.rx == Rx([], 0, t.rx.assembly) && t.rx.assembly.chunks == [] && t.flow == NoHeader
            && Outcomes(t.events) == Verdicts(posts)
            && Heartbeats(t.events) == Replies(StreamBeats(posts, useMask), pong)
    decreases |posts|
  {
    hide AllTurns, Outcomes, Heartbeats, Replies, PostStream, PostBeats, Acceptable, EncodeFrames, Post.Valid, Streams,
         StreamBeats, Verdicts, Verdict;
    NoStreams(useMask, a, pong);
    if posts != [] {
      var n := |posts| - 1;
      StreamsDelivered(posts[..n], useMask, a, pong);
      StreamsSnoc(posts, useMask);
      OneMoreStream(Streams(posts[..n], useMask), posts[n], useMask, a, pong);
      RepliesConcat(StreamBeats(posts[..n], useMask), PostBeats(posts[n], useMask), pong);
    }
  }

  lemma {:induction false} StreamsPrefix(posts: seq<Post>, i: nat, useMask: bool)
    requires i <= |posts|
    ensures Streams(posts[..i], useMask) <= Streams(posts, useMask)
    decreases |posts|
  {
    hide PostStream;
    if i == |posts| {
      assert posts[..i] == posts;
    } else {
      var n := |posts| - 1;
      StreamsPrefix(posts[..n], i, useMask);
      assert posts[..n][..i] == posts[..i];
      assert Streams(posts[..n], useMask) <= Streams(posts[..n], useMask) + PostStream(posts[n], useMask);
    }
  }

  /** One message after the other, until the socket fails. */
  method SendAll(s: Sender.Sender, out: Outgoing, posts: seq<Post>) returns (ok: bool, ghost frames: seq<Frame>)
    requires forall p | p in posts :: p.Valid()
    requires s.txbuf == []
    modifies s`txbuf, s`readyState, out
    ensures frames <= Streams(posts, s.useMask) && (ok ==> frames == Streams(posts, s.useMask))
    ensures forall f | f in frames :: f.opcode < 16
    ensures out.sent + s.txbuf == old(out.sent + s.txbuf) + EncodeFrames(frames)
    ensures old(out.sent) <= out.sent && old(out.answers) <= out.answers
    ensures ok <==> NoFailure(out.answers, |old(out.answers)|)
    ensures ok ==> s.txbuf == [] || (out.answers != [] && out.answers[|out.answers| - 1] == Wait)
  {
    hide EncodeFrames, Streams, PostStream, Post.Valid, NoFailure;
    ghost var before := out.sent + s.txbuf;
    NothingFailed(out.answers);
    ok, frames := true, [];
    Sender.NoFrames();
    NothingStreamed(s.useMask);
    assert posts[..0] == [] && before + [] == before;
    for i := 0 to |posts|
      invariant ok && frames == Streams(posts[..i], s.useMask) && forall f | f in frames :: f.opcode < 16
      invariant out.sent + s.txbuf == before + EncodeFrames(frames)
      invariant old(out.sent) <= out.sent
      invariant old(out.answers) <= out.answers && NoFailure(out.answers, |old(out.answers)|)
      invariant s.txbuf == [] || (out.answers != [] && out.answers[|out.answers| - 1] == Wait)
    {
      ghost var asked, handed := out.answers, [];
      ok, handed := SendInterleaved(s, out, posts[i]);
      Handed(before, frames, handed, out.sent + s.txbuf);
      FailuresAdd(asked, out.answers, |old(out.answers)|);
      assert posts[..i + 1][..i] == posts[..i];
      StreamsSnoc(posts[..i + 1], s.useMask);
      StreamsPrefix(posts, i + 1, s.useMask);
      PrefixOfSum(frames, handed, PostStream(posts[i], s.useMask), Streams(posts, s.useMask));
      frames := frames + handed;
      if !ok {
        return;
      }
    }
    assert posts[..|posts|] == posts;
  }

  lemma NothingStreamed(useMask: bool)
    ensures Streams([], useMask) == []
  {
  }

  /** A whole exchange between messages: any number of messages and the heartbeats are sent, flushed later as
      the socket allows, and received in any pieces by any number of polls. The sender fails only if its socket
      does; the receiver has seen exactly the bytes that have arrived; and when all of them have, it has
      delivered every message once and unchanged, in order, with every heartbeat. */
  method Exchange(s: Sender.Sender, out: Outgoing, r: Receiver, posts: seq<Post>, ready: seq<Sender.Readiness>,
                  polls: nat)
    returns (success: bool, link: Link, ghost frames: seq<Frame>, ghost trace: seq<Poll>, open: bool)
    requires forall p | p in posts :: p.Valid()
    requires s.readyState == Sender.Open && s.txbuf == []
    requires r.rxbuf == [] && r.rxbufWanted == 0 && r.chunks == []
    modifies s, out, r
    ensures var stream := Streams(posts, s.useMask);
            && frames <= stream && AllAcceptable(frames)
            && (success || NoFailure(out.answers, |old(out.answers)|) ==> frames == stream)
    ensures out.sent + s.txbuf == old(out.sent) + EncodeFrames(frames)
    ensures old(out.sent) <= out.sent && old(out.answers) <= out.answers
    ensures success ==> NoFailure(out.answers, |old(out.answers)|)
    ensures !success ==> !NoFailure(out.answers, |old(out.answers)|) || Sender.ReadyError in ready
    ensures success ==> s.txbuf == [] || (out.answers != [] && out.answers[|out.answers| - 1] == Wait)
    ensures fresh(link) && old(out.sent) + (Received(trace) + link.incoming) == out.sent
    ensures Chained(old(r.State()), trace, r.enablePong) && |link.answers| == Asked(trace)
    ensures open <==> NoFailure(link.answers, 0)
    ensures open ==> |trace| == polls
    ensures r.events == old(r.events) + AllTurns(Append(old(r.State()), Received(trace)), r.enablePong).events
    ensures success && s.txbuf == [] && link.incoming == [] ==>
              var events := r.events[|old(r.events)|..];
              && Outcomes(events) == Verdicts(posts)
              && Heartbeats(events) == Replies(StreamBeats(posts, s.useMask), r.enablePong)
              && (open ==> r.rxbuf == [] && r.rxbufWanted == 0 && r.chunks == [])
  {
    hide AllTurns, Outcomes, Heartbeats, Replies, EncodeFrames, Acceptable, AllAcceptable, Chained, Received, Asked,
         Streams, StreamBeats, Verdicts, Post.Valid;
    ghost var a, start, pong := r.State().assembly, r.State(), r.enablePong;
    ghost var asked, before, stream := out.answers, out.sent, Streams(posts, s.useMask);
    var sentBefore := |out.sent|;
    success, frames := SendAll(s, out, posts);
    if success {
      ghost var handed := out.answers;
      success := s.FlushSendBuffer(out, ready);
      FailuresAdd(handed, out.answers, |asked|);
    }
    StreamsDelivered(posts, s.useMask, a, pong);
    AcceptablePrefix(frames, stream);
    var arrived := out.sent[sentBefore..];
    SentSince(before, out.sent, s.txbuf, EncodeFrames(frames));
    SentBytesDispatch(arrived, s.txbuf, frames, a, pong);
    link := new Link(arrived);
    trace, open := Session(r, link, polls);
    if success && s.txbuf == [] && link.incoming == [] {
      assert Received(trace) == arrived == EncodeFrames(stream);
      assert Append(start, arrived) == Rx(arrived, 0, a);
    }
  }

  lemma SentSince(before: Bytes, sent: Bytes, pending: Bytes, encoded: Bytes)
    requires before <= sent && sent + pending == before + encoded
    ensures before + sent[|before|..] == sent && sent[|before|..] + pending == encoded
  {
    assert (sent + pending)[|before|..] == encoded;
  }

  lemma AcceptablePrefix(frames: seq<Frame>, all: seq<Frame>)
    requires frames <= all && AllAcceptable(all)
    ensures AllAcceptable(frames)
  {
    assert forall f | f in frames :: f in all;
  }
}
