/** WebSocket frames on the wire (section 5.2 of RFC 6455). */
module WebSocketFrame {
  import opened Bits
  import opened Numbers

  const CONTINUATION: nat := 0
  const TEXT_FRAME: nat := 1
  const BINARY_FRAME: nat := 2
  const CLOSE: nat := 8
  const PING: nat := 9
  const PONG: nat := 10

  datatype Option<+T> = None | Some(value: T)

  type Key = k: Bytes | |k| == 4 witness [0, 0, 0, 0]

  datatype Frame = Frame(fin: bool, opcode: nat, key: Option<Key>, payload: Bytes)

  // ----- Masking.

  function XorByte(a: Byte, b: Byte): Byte {
    Pow2Table();
    XorBound(a, b, 8);
    Xor(a, b)
  }

  /** Every byte is combined with the key byte of its position. */
  function Masked(key: Option<Key>, s: Bytes): (t: Bytes)
    ensures |t| == |s|
  {
    if key.None? then s else seq(|s|, i requires 0 <= i < |s| => XorByte(s[i], key.value[i % 4]))
  }

  /** Masking twice with the same key is the identity. */
  lemma MaskedTwice(key: Option<Key>, s: Bytes)
    ensures Masked(key, Masked(key, s)) == s
  {
    hide Xor;
    if key.Some? {
      forall i | 0 <= i < |s| ensures Masked(key, Masked(key, s))[i] == s[i] {
        XorTwice(s[i], key.value[i % 4]);
      }
    }
  }

  // ----- Lengths in network byte order.

  /** The k lowest bytes of n, the highest first. */
  function BigEndian(n: nat, k: nat): (s: Bytes)
    ensures |s| == k
  {
    if k == 0 then [] else BigEndian(n / 256, k - 1) + [n % 256]
  }

  function BigEndianValue(s: Bytes): nat {
    if s == [] then 0 else 256 * BigEndianValue(s[..|s| - 1]) + s[|s| - 1]
  }

  lemma {:induction false} BigEndianInverse(n: nat, k: nat)
    requires n < Pow2(8 * k)
    ensures BigEndianValue(BigEndian(n, k)) == n
  {
    if k > 0 {
      EightBits(k);
      BigEndianInverse(n / 256, k - 1);
      var s := BigEndian(n, k);
      assert s[..|s| - 1] == BigEndian(n / 256, k - 1);
    }
  }

  lemma Doubles(k: nat)
    ensures Pow2(k + 1) == 2 * Pow2(k)
  {
  }

  lemma FourBits(k: nat)
    ensures Pow2(k + 4) == 16 * Pow2(k)
  {
    hide Pow2;
    Doubles(k);
    Doubles(k + 1);
    Doubles(k + 2);
    Doubles(k + 3);
  }

  lemma EightBits(k: nat)
    requires k > 0
    ensures Pow2(8 * k) == 256 * Pow2(8 * (k - 1))
  {
    hide Pow2;
    var j := 8 * (k - 1);
    FourBits(j);
    FourBits(j + 4);
    assert 8 * k == j + 8;
  }

  // ----- The encoding of a frame.

  /** The length field in the shortest of the three forms, and the extended length. */
  function LengthField(n: nat): (s: Bytes)
    ensures |s| >= 1 && s[0] <= 127
  {
    if n < 126 then [n] else if n < 65536 then [126] + BigEndian(n, 2) else [127] + BigEndian(n, 8)
  }

  function KeyBytes(key: Option<Key>): (s: Bytes)
    ensures |s| == if key.Some? then 4 else 0
  {
    if key.Some? then key.value else []
  }

  function Header(f: Frame): (s: Bytes)
    requires f.opcode < 16
    ensures |s| >= 2
  {
    var length := LengthField(|f.payload|);
    [f.opcode + if f.fin then 128 else 0]
    + [length[0] + if f.key.Some? then 128 else 0]
    + length[1..]
    + KeyBytes(f.key)
  }

  function EncodeFrame(f: Frame): Bytes
    requires f.opcode < 16
  {
    Header(f) + Masked(f.key, f.payload)
  }

  function EncodeFrames(frames: seq<Frame>): Bytes
    requires forall f | f in frames :: f.opcode < 16
    decreases |frames|
  {
    if frames == [] then [] else EncodeFrame(frames[0]) + EncodeFrames(frames[1..])
  }

  lemma {:induction false} EncodeFramesSnoc(frames: seq<Frame>, f: Frame)
    requires forall g | g in frames :: g.opcode < 16
    requires f.opcode < 16
    ensures EncodeFrames(frames + [f]) == EncodeFrames(frames) + EncodeFrame(f)
    decreases |frames|
  {
    hide EncodeFrame;
    if frames == [] {
      assert [f][1..] == [];
      assert frames + [f] == [f];
    } else {
      EncodeFramesSnoc(frames[1..], f);
      assert (frames + [f])[1..] == frames[1..] + [f];
    }
  }

  // ----- Reading a header.

  predicate Fin(s: Bytes)
    requires |s| >= 2
  {
    s[0] >= 128
  }

  /** One of the three reserved bits is set; without compression rsv1 is as wrong as the others. */
  predicate Reserved(s: Bytes)
    requires |s| >= 2
  {
    s[0] / 64 % 2 == 1 || s[0] / 32 % 2 == 1 || s[0] / 16 % 2 == 1
  }

  function Opcode(s: Bytes): (r: nat)
    requires |s| >= 2
    ensures r < 16
  {
    s[0] % 16
  }

  predicate HasMask(s: Bytes)
    requires |s| >= 2
  {
    s[1] >= 128
  }

  function N0(s: Bytes): (r: nat)
    requires |s| >= 2
    ensures r < 128
  {
    s[1] % 128
  }

  function LengthEnd(s: Bytes): (r: nat)
    requires |s| >= 2
    ensures 2 <= r <= 10
  {
    if N0(s) == 126 then 4 else if N0(s) == 127 then 10 else 2
  }

  function HeaderSize(s: Bytes): (r: nat)
    requires |s| >= 2
    ensures LengthEnd(s) <= r <= 14
  {
    LengthEnd(s) + if HasMask(s) then 4 else 0
  }

  predicate HasHeader(s: Bytes) {
    |s| >= 2 && |s| >= HeaderSize(s)
  }

  function PayloadLength(s: Bytes): nat
    requires HasHeader(s)
  {
    if N0(s) < 126 then N0(s) else BigEndianValue(s[2..LengthEnd(s)])
  }

  function MaskingKey(s: Bytes): (k: Option<Key>)
    requires HasHeader(s)
  {
    if HasMask(s) then Some(s[LengthEnd(s)..LengthEnd(s) + 4]) else None
  }

  function FrameSize(s: Bytes): (n: nat)
    requires HasHeader(s)
    ensures n >= 2
  {
    HeaderSize(s) + PayloadLength(s)
  }

  /** The unmasked payload. */
  function Payload(s: Bytes): (p: Bytes)
    requires HasHeader(s) && |s| >= FrameSize(s)
    ensures |p| == PayloadLength(s)
  {
    Masked(MaskingKey(s), s[HeaderSize(s)..FrameSize(s)])
  }

  /** What is read from a header depends on nothing after it. */
  lemma HeaderPrefix(a: Bytes, b: Bytes)
    requires HasHeader(a)
    ensures HasHeader(a + b) && HeaderSize(a + b) == HeaderSize(a) && FrameSize(a + b) == FrameSize(a)
    ensures Fin(a + b) == Fin(a) && Reserved(a + b) == Reserved(a) && Opcode(a + b) == Opcode(a)
    ensures PayloadLength(a + b) == PayloadLength(a) && MaskingKey(a + b) == MaskingKey(a)
    ensures |a| >= FrameSize(a) ==> Payload(a + b) == Payload(a)
  {
    assert (a + b)[0] == a[0] && (a + b)[1] == a[1];
    var e := LengthEnd(a);
    assert (a + b)[2..e] == a[2..e];
    assert HasMask(a) ==> (a + b)[e..e + 4] == a[e..e + 4];
    if |a| >= FrameSize(a) {
      assert (a + b)[HeaderSize(a)..FrameSize(a)] == a[HeaderSize(a)..FrameSize(a)];
    }
  }

  /** An encoded frame reads back as itself, for every payload whose length fits the 64-bit form. */
  lemma ReadsBack(f: Frame)
    requires f.opcode < 16 && |f.payload| < 0x1_0000_0000_0000_0000
    ensures var s := EncodeFrame(f);
            HasHeader(s) && HeaderSize(s) == |Header(f)| && PayloadLength(s) == |f.payload| && FrameSize(s) == |s|
    ensures var s := EncodeFrame(f); Payload(s) == f.payload && MaskingKey(s) == f.key
    ensures var s := EncodeFrame(f); Fin(s) == f.fin && Opcode(s) == f.opcode && !Reserved(s)
  {
    hide Masked, BigEndian, BigEndianValue;
    HeaderReadsBack(f);
    var h, body := Header(f), Masked(f.key, f.payload);
    HeaderPrefix(h, body);
    var s := EncodeFrame(f);
    assert s[HeaderSize(s)..FrameSize(s)] == body;
    MaskedTwice(f.key, f.payload);
  }

  lemma HeaderReadsBack(f: Frame)
    requires f.opcode < 16 && |f.payload| < 0x1_0000_0000_0000_0000
    ensures var h := Header(f);
            HasHeader(h) && HeaderSize(h) == |h| && PayloadLength(h) == |f.payload| && MaskingKey(h) == f.key
    ensures var h := Header(f); Fin(h) == f.fin && Opcode(h) == f.opcode && !Reserved(h)
  {
    hide BigEndian, BigEndianValue, Pow2;
    var n := |f.payload|;
    var h, length := Header(f), LengthField(n);
    var e := LengthEnd(h);
    assert N0(h) == length[0] && e == 1 + |length|;
    assert h[2..e] == length[1..];
    assert f.key.Some? ==> h[e..e + 4] == f.key.value;
    Pow2Table();
    if 126 <= n < 65536 {
      assert length[1..] == BigEndian(n, 2);
      BigEndianInverse(n, 2);
    } else if n >= 65536 {
      assert length[1..] == BigEndian(n, 8);
      BigEndianInverse(n, 8);
    }
  }
}
