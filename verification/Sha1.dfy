/** The in-place SHA-1 of the WebSocket handshake (sixteen schedule words and five registers that
    rotate by index) against the 80-word algorithm of section 6.1.2 of FIPS 180-4, and the accept
    value of section 4.2.2 of RFC 6455. */
module Sha1 {
  import opened Bits
  import opened Numbers
  import Base64

  type Word = x: nat | x < 0x1_0000_0000
  type Hash = h: seq<Word> | |h| == 5 witness [0, 0, 0, 0, 0]
  type Block = b: seq<Word> | |b| == 16 witness [0, 0, 0, 0, 0, 0, 0, 0, 0, 0, 0, 0, 0, 0, 0, 0]

  // ----- Sections 4.1.1, 4.2.1 and 6.1.2 of FIPS 180-4.

  /** Addition modulo 2 to the power 32. */
  function Add(x: Word, y: Word): Word {
    (x + y) % 0x1_0000_0000
  }

  /** Rotations to the left, by shifts in both directions. */
  function Rotl1(x: Word): Word {
    x * 2 % 0x1_0000_0000 + x / 0x8000_0000
  }

  function Rotl5(x: Word): Word {
    x * 0x20 % 0x1_0000_0000 + x / 0x800_0000
  }

  function Rotl30(x: Word): Word {
    x * 0x4000_0000 % 0x1_0000_0000 + x / 4
  }

  function XorWord(x: Word, y: Word): Word {
    Pow2Table();
    XorBound(x, y, 32);
    Xor(x, y)
  }

  function AndWord(x: Word, y: Word): Word {
    Pow2Table();
    AndBound(x, y, 32);
    And(x, y)
  }

  function OrWord(x: Word, y: Word): Word {
    Pow2Table();
    OrBound(x, y, 32);
    Or(x, y)
  }

  function NotWord(x: Word): Word {
    0xFFFF_FFFF - x
  }

  function Ch(x: Word, y: Word, z: Word): Word {
    XorWord(AndWord(x, y), AndWord(NotWord(x), z))
  }

  function Parity(x: Word, y: Word, z: Word): Word {
    XorWord(XorWord(x, y), z)
  }

  function Maj(x: Word, y: Word, z: Word): Word {
    XorWord(XorWord(AndWord(x, y), AndWord(x, z)), AndWord(y, z))
  }

  function F(t: nat, x: Word, y: Word, z: Word): Word {
    if t < 20 then Ch(x, y, z)
    else if t < 40 then Parity(x, y, z)
    else if t < 60 then Maj(x, y, z)
    else Parity(x, y, z)
  }

  function K(t: nat): Word {
    if t < 20 then 0x5a827999 else if t < 40 then 0x6ed9eba1 else if t < 60 then 0x8f1bbcdc else 0xca62c1d6
  }

  /** The message schedule. */
  function W(block: Block, t: nat): Word {
    if t < 16 then block[t]
    else Rotl1(XorWord(XorWord(XorWord(W(block, t - 3), W(block, t - 8)), W(block, t - 14)), W(block, t - 16)))
  }

  datatype Regs = Regs(a: Word, b: Word, c: Word, d: Word, e: Word)

  function Round(r: Regs, t: nat, w: Word): Regs {
    Regs(Add(Add(Add(Add(Rotl5(r.a), F(t, r.b, r.c, r.d)), r.e), K(t)), w), r.a, Rotl30(r.b), r.c, r.d)
  }

  /** The working variables before step t. */
  function Rounds(hash: Hash, block: Block, t: nat): Regs {
    if t == 0 then Regs(hash[0], hash[1], hash[2], hash[3], hash[4])
    else Round(Rounds(hash, block, t - 1), t - 1, W(block, t - 1))
  }

  function StepCount(): (n: nat)
    ensures n == 80
  {
    80
  }

  /** The hash computation on one block. */
  function Compress(hash: Hash, block: Block): Hash {
    var r := Rounds(hash, block, StepCount());
    [Add(hash[0], r.a), Add(hash[1], r.b), Add(hash[2], r.c), Add(hash[3], r.d), Add(hash[4], r.e)]
  }

  // ----- The five rotating registers and the sixteen rotating words.

  /** The registers of step t stand in the array from index t on, the last one first. */
  ghost predicate Holds(a: seq<Word>, t: nat, r: Regs) {
    |a| == 5 && a[(t + 4) % 5] == r.a && a[(t + 3) % 5] == r.b && a[(t + 2) % 5] == r.c
    && a[(t + 1) % 5] == r.d && a[t % 5] == r.e
  }

  /** Before step t the buffer holds the last sixteen words of the schedule. */
  ghost predicate Scheduled(b: seq<Word>, block: Block, t: nat) {
    |b| == 16 && (if t < 16 then b == block else forall j | t - 16 <= j < t :: b[j % 16] == W(block, j))
  }

  /** The choice and the majority as the source computes them. */
  function Select(x: Word, y: Word, z: Word): Word {
    XorWord(AndWord(x, XorWord(y, z)), z)
  }

  function Vote(x: Word, y: Word, z: Word): Word {
    OrWord(AndWord(OrWord(x, y), z), AndWord(x, y))
  }

  lemma ChIsSelect(x: Word, y: Word, z: Word)
    ensures Select(x, y, z) == Ch(x, y, z)
  {
    hide And, Xor;
    Pow2Table();
    ChooseBits(x, y, z, 32);
  }

  lemma MajIsVote(x: Word, y: Word, z: Word)
    ensures Vote(x, y, z) == Maj(x, y, z)
  {
    hide And, Xor, Or;
    Pow2Table();
    MajorityBits(x, y, z, 32);
  }

  lemma AddTwice(x: Word, y: Word, z: Word)
    ensures Add(Add(x, y), z) == (x + y + z) % 0x1_0000_0000
  {
  }

  lemma AddSwap(x: Word, y: Word, z: Word)
    ensures Add(Add(x, y), z) == Add(Add(x, z), y)
  {
    hide Add;
    AddTwice(x, y, z);
    AddTwice(x, z, y);
  }

  lemma AddComm(x: Word, y: Word)
    ensures Add(x, y) == Add(y, x)
  {
  }

  lemma SumOrder(e: Word, f: Word, w: Word, k: Word, r: Word)
    ensures Add(e, Add(Add(Add(f, w), k), r)) == Add(Add(Add(Add(r, f), e), k), w)
  {
    hide Add;
    AddComm(e, Add(Add(Add(f, w), k), r));
    AddSwap(Add(f, w), k, r);
    AddSwap(f, w, r);
    AddComm(f, r);
    AddSwap(Add(Add(r, f), w), k, e);
    AddSwap(Add(r, f), w, e);
    AddSwap(Add(Add(r, f), e), w, k);
  }

  /** The new registers, where the step leaves them. */
  lemma Rotates(a: seq<Word>, t: nat, r: Regs, w: Word, next: seq<Word>)
    requires Holds(a, t, r) && |next| == 5
    requires next[t % 5] == Round(r, t, w).a && next[(t + 3) % 5] == Rotl30(r.b)
    requires next[(t + 4) % 5] == r.a && next[(t + 2) % 5] == r.c && next[(t + 1) % 5] == r.d
    ensures Holds(next, t + 1, Round(r, t, w))
  {
    hide Rotl5, Rotl30, F, K, Add;
    assert (t + 1 + 4) % 5 == t % 5;
  }

  /** Sixteen steps back is the same place. */
  lemma PlaceBefore(t: nat, d: nat)
    requires d <= 16 <= t
    ensures (t - d) % 16 == (t + 16 - d) % 16
  {
  }

  /** The sixteen words before step t stand in sixteen places, the oldest where the next one goes. */
  lemma OtherPlace(t: nat, j: nat)
    requires t - 16 < j < t
    ensures j % 16 != t % 16
  {
  }

  lemma ScheduleNext(b: seq<Word>, block: Block, t: nat)
    requires t >= 16 && Scheduled(b, block, t)
    ensures W(block, t)
         == Rotl1(XorWord(XorWord(XorWord(b[(t + 13) % 16], b[(t + 8) % 16]), b[(t + 2) % 16]), b[t % 16]))
    ensures Scheduled(b[t % 16 := W(block, t)], block, t + 1)
  {
    hide Rotl1, W, XorWord;
    FirstWords(b, block, t);
    PlaceBefore(t, 3);
    PlaceBefore(t, 8);
    PlaceBefore(t, 14);
    PlaceBefore(t, 16);
    assert b[(t - 3) % 16] == W(block, t - 3) && b[(t - 8) % 16] == W(block, t - 8);
    assert b[(t - 14) % 16] == W(block, t - 14) && b[(t - 16) % 16] == W(block, t - 16);
    WStep(block, t);
    ScheduledNext(b, block, t);
  }

  lemma ScheduledNext(b: seq<Word>, block: Block, t: nat)
    requires t >= 16 && Scheduled(b, block, t)
    ensures Scheduled(b[t % 16 := W(block, t)], block, t + 1)
  {
    hide W;
    FirstWords(b, block, t);
    forall j | t + 1 - 16 <= j < t + 1 ensures b[t % 16 := W(block, t)][j % 16] == W(block, j) {
      if j < t {
        OtherPlace(t, j);
        assert b[j % 16] == W(block, j);
      }
    }
  }

  lemma WStep(block: Block, t: nat)
    requires t >= 16
    ensures W(block, t)
         == Rotl1(XorWord(XorWord(XorWord(W(block, t - 3), W(block, t - 8)), W(block, t - 14)), W(block, t - 16)))
  {
    hide Rotl1, XorWord;
  }

  /** At step 16 the buffer is still the block. */
  lemma FirstWords(b: seq<Word>, block: Block, t: nat)
    requires t >= 16 && Scheduled(b, block, t)
    ensures forall j | t - 16 <= j < t :: b[j % 16] == W(block, j)
  {
  }

  lemma ScheduleFirst(b: seq<Word>, block: Block, t: nat)
    requires t < 16 && Scheduled(b, block, t)
    ensures b[t] == W(block, t) && Scheduled(b, block, t + 1)
  {
    if t == 15 {
      forall j | 0 <= j < 16 ensures b[j % 16] == W(block, j) {
      }
    }
  }

  // ----- The loops of the source.

  /** blk: the next schedule word. */
  method Blk(b: array<Word>, i: nat) returns (w: Word)
    requires b.Length == 16 && i < 16
    ensures w == Rotl1(XorWord(XorWord(XorWord(b[(i + 13) % 16], b[(i + 8) % 16]), b[(i + 2) % 16]), b[i]))
  {
    w := Rotl1(XorWord(XorWord(XorWord(b[(i + 13) % 16], b[(i + 8) % 16]), b[(i + 2) % 16]), b[i]));
  }

  /** The two assignments at the end of every step. */
  method Rotate(a: array<Word>, i: nat, sum: Word)
    requires a.Length == 5
    modifies a
    ensures a[i % 5] == Add(old(a[i % 5]), sum) && a[(i + 3) % 5] == Rotl30(old(a[(i + 3) % 5]))
    ensures a[(i + 1) % 5] == old(a[(i + 1) % 5]) && a[(i + 2) % 5] == old(a[(i + 2) % 5])
    ensures a[(i + 4) % 5] == old(a[(i + 4) % 5])
  {
    hide Rotl30, Add;
    a[i % 5] := Add(a[i % 5], sum);
    a[(3 + i) % 5] := Rotl30(a[(3 + i) % 5]);
  }

  lemma Wraps(t: nat, i: nat)
    requires i == t % 16
    ensures (i + 13) % 16 == (t + 13) % 16 && (i + 8) % 16 == (t + 8) % 16 && (i + 2) % 16 == (t + 2) % 16
  {
    SamePlace(t / 16, i + 13);
    SamePlace(t / 16, i + 8);
    SamePlace(t / 16, i + 2);
  }

  lemma SamePlace(q: nat, x: nat)
    ensures (16 * q + x) % 16 == x % 16
  {
  }

  /** The next word of the schedule goes where the oldest was. */
  method Extend(b: array<Word>, i: nat, ghost t: nat, ghost block: Block)
    requires b.Length == 16 && i == t % 16 && t >= 16 && Scheduled(b[..], block, t)
    modifies b
    ensures b[i] == W(block, t) && Scheduled(b[..], block, t + 1)
  {
    hide Rotl1, W, Scheduled, XorWord;
    ScheduleNext(b[..], block, t);
    Wraps(t, i);
    ghost var was := b[..];
    var w := Blk(b, i);
    b[i] := w;
    assert b[..] == was[i := W(block, t)];
  }

  lemma RoundSum(r: Regs, t: nat, w: Word, f: Word, k: Word)
    requires f == F(t, r.b, r.c, r.d) && k == K(t)
    ensures Add(r.e, Add(Add(Add(f, w), k), Rotl5(r.a))) == Round(r, t, w).a
  {
    hide F, K, Rotl5, Rotl30, Add;
    SumOrder(r.e, f, w, k, Rotl5(r.a));
  }

  /** The sum of a step, and the step. */
  method Step(a: array<Word>, i: nat, f: Word, w: Word, k: Word, ghost t: nat, ghost r: Regs)
    requires a.Length == 5 && i % 5 == t % 5 && Holds(a[..], t, r)
    requires f == F(t, r.b, r.c, r.d) && k == K(t)
    modifies a
    ensures Holds(a[..], t + 1, Round(r, t, w))
  {
    hide Rotl5, Rotl30, F, K, Round, Add;
    SameIndices(i, t);
    ghost var was := a[..];
    RoundSum(r, t, w, f, k);
    RoundRegs(r, t, w);
    Rotate(a, i, Add(Add(Add(f, w), k), Rotl5(a[(4 + i) % 5])));
    Rotates(was, t, r, w, a[..]);
  }

  lemma RoundRegs(r: Regs, t: nat, w: Word)
    ensures var n := Round(r, t, w); n.b == r.a && n.c == Rotl30(r.b) && n.d == r.c && n.e == r.d
  {
  }

  lemma NextIndex(i: nat, t: nat)
    requires i % 5 == t % 5
    ensures (i + 1) % 5 == (t + 1) % 5
  {
    assert (i + 1) % 5 == if i % 5 == 4 then 0 else i % 5 + 1;
  }

  lemma SameIndices(i: nat, t: nat)
    requires i % 5 == t % 5
    ensures (i + 1) % 5 == (t + 1) % 5 && (i + 2) % 5 == (t + 2) % 5 && (i + 3) % 5 == (t + 3) % 5
    ensures (i + 4) % 5 == (t + 4) % 5
  {
    NextIndex(i, t);
    NextIndex(i + 1, t + 1);
    NextIndex(i + 2, t + 2);
    NextIndex(i + 3, t + 3);
  }

  /** Sha1Loop<1>: steps 0 to 15. */
  method Loop1(a: array<Word>, b: array<Word>, i: nat, ghost r: Regs, ghost block: Block)
    requires a != b && a.Length == 5 && b.Length == 16 && i < 16
    requires Holds(a[..], i, r) && Scheduled(b[..], block, i)
    modifies a
    ensures Holds(a[..], i + 1, Round(r, i, W(block, i))) && Scheduled(b[..], block, i + 1)
  {
    hide Ch, Select, W, Round;
    ScheduleFirst(b[..], block, i);
    ChIsSelect(r.b, r.c, r.d);
    var f := Select(a[(3 + i) % 5], a[(2 + i) % 5], a[(1 + i) % 5]);
    Step(a, i, f, b[i], 0x5a827999, i, r);
  }

  /** Sha1Loop<2>: steps 16 to 19. */
  method Loop2(a: array<Word>, b: array<Word>, i: nat, ghost r: Regs, ghost block: Block)
    requires a != b && a.Length == 5 && b.Length == 16 && i < 4
    requires Holds(a[..], 16 + i, r) && Scheduled(b[..], block, 16 + i)
    modifies a, b
    ensures Holds(a[..], 17 + i, Round(r, 16 + i, W(block, 16 + i))) && Scheduled(b[..], block, 17 + i)
  {
    hide Ch, Select, W, Round, Scheduled;
    Extend(b, i, 16 + i, block);
    ChIsSelect(r.b, r.c, r.d);
    SameIndices(1 + i, 16 + i);
    var f := Select(a[(4 + i) % 5], a[(3 + i) % 5], a[(2 + i) % 5]);
    Step(a, 1 + i, f, b[i], 0x5a827999, 16 + i, r);
  }

  /** Sha1Loop<3>: steps 20 to 39. */
  method Loop3(a: array<Word>, b: array<Word>, i: nat, ghost r: Regs, ghost block: Block)
    requires a != b && a.Length == 5 && b.Length == 16 && i < 20
    requires Holds(a[..], 20 + i, r) && Scheduled(b[..], block, 20 + i)
    modifies a, b
    ensures Holds(a[..], 21 + i, Round(r, 20 + i, W(block, 20 + i))) && Scheduled(b[..], block, 21 + i)
  {
    hide Parity, W, Round, Scheduled;
    Extend(b, (i + 4) % 16, 20 + i, block);
    SameIndices(i, 20 + i);
    var f := Parity(a[(3 + i) % 5], a[(2 + i) % 5], a[(1 + i) % 5]);
    Step(a, i, f, b[(i + 4) % 16], 0x6ed9eba1, 20 + i, r);
  }

  /** Sha1Loop<4>: steps 40 to 59. */
  method Loop4(a: array<Word>, b: array<Word>, i: nat, ghost r: Regs, ghost block: Block)
    requires a != b && a.Length == 5 && b.Length == 16 && i < 20
    requires Holds(a[..], 40 + i, r) && Scheduled(b[..], block, 40 + i)
    modifies a, b
    ensures Holds(a[..], 41 + i, Round(r, 40 + i, W(block, 40 + i))) && Scheduled(b[..], block, 41 + i)
  {
    hide Maj, Vote, W, Round, Scheduled;
    Extend(b, (i + 8) % 16, 40 + i, block);
    MajIsVote(r.b, r.c, r.d);
    SameIndices(i, 40 + i);
    var f := Vote(a[(3 + i) % 5], a[(2 + i) % 5], a[(1 + i) % 5]);
    Step(a, i, f, b[(i + 8) % 16], 0x8f1bbcdc, 40 + i, r);
  }

  /** Sha1Loop<5>: steps 60 to 79. */
  method Loop5(a: array<Word>, b: array<Word>, i: nat, ghost r: Regs, ghost block: Block)
    requires a != b && a.Length == 5 && b.Length == 16 && i < 20
    requires Holds(a[..], 60 + i, r) && Scheduled(b[..], block, 60 + i)
    modifies a, b
    ensures Holds(a[..], 61 + i, Round(r, 60 + i, W(block, 60 + i))) && Scheduled(b[..], block, 61 + i)
  {
    hide Parity, W, Round, Scheduled;
    Extend(b, (i + 12) % 16, 60 + i, block);
    SameIndices(i, 60 + i);
    var f := Parity(a[(3 + i) % 5], a[(2 + i) % 5], a[(1 + i) % 5]);
    Step(a, i, f, b[(i + 12) % 16], 0xca62c1d6, 60 + i, r);
  }

  /** sha1: both arrays are updated in place, and the hash is that of FIPS 180-4. */
  method Sha1InPlace(hash: array<Word>, b: array<Word>)
    requires hash != b && hash.Length == 5 && b.Length == 16
    modifies hash, b
    ensures hash[..] == Compress(old(hash[..]), old(b[..]))
  {
    hide Holds, Scheduled, Round, W, Compress, Rounds;
    ghost var h: Hash, block: Block := hash[..], b[..];
    var a := new Word[5][hash[4], hash[3], hash[2], hash[1], hash[0]];
    Begins(a[..], h, b[..], block);
    for i := 0 to 16
      invariant Holds(a[..], i, Rounds(h, block, i)) && Scheduled(b[..], block, i)
      invariant hash[..] == h
    {
      RoundsStep(h, block, i);
      Loop1(a, b, i, Rounds(h, block, i), block);
    }
    for i := 0 to 4
      invariant Holds(a[..], 16 + i, Rounds(h, block, 16 + i)) && Scheduled(b[..], block, 16 + i)
      invariant hash[..] == h
    {
      RoundsStep(h, block, 16 + i);
      Loop2(a, b, i, Rounds(h, block, 16 + i), block);
    }
    for i := 0 to 20
      invariant Holds(a[..], 20 + i, Rounds(h, block, 20 + i)) && Scheduled(b[..], block, 20 + i)
      invariant hash[..] == h
    {
      RoundsStep(h, block, 20 + i);
      Loop3(a, b, i, Rounds(h, block, 20 + i), block);
    }
    for i := 0 to 20
      invariant Holds(a[..], 40 + i, Rounds(h, block, 40 + i)) && Scheduled(b[..], block, 40 + i)
      invariant hash[..] == h
    {
      RoundsStep(h, block, 40 + i);
      Loop4(a, b, i, Rounds(h, block, 40 + i), block);
    }
    for i := 0 to 20
      invariant Holds(a[..], 60 + i, Rounds(h, block, 60 + i)) && Scheduled(b[..], block, 60 + i)
      invariant hash[..] == h
    {
      RoundsStep(h, block, 60 + i);
      Loop5(a, b, i, Rounds(h, block, 60 + i), block);
    }
    AddRegisters(hash, a);
    Ends(a[..], h, block);
  }

  /** Sha1Loop<6>. */
  method AddRegisters(hash: array<Word>, a: array<Word>)
    requires hash != a && hash.Length == 5 && a.Length == 5
    modifies hash
    ensures hash[..] == [Add(old(hash[0]), a[4]), Add(old(hash[1]), a[3]), Add(old(hash[2]), a[2]),
                         Add(old(hash[3]), a[1]), Add(old(hash[4]), a[0])]
  {
    hide Add;
    for i := 0 to 5
      invariant forall j | 0 <= j < i :: hash[j] == Add(old(hash[j]), a[4 - j])
      invariant forall j | i <= j < 5 :: hash[j] == old(hash[j])
    {
      hash[i] := Add(hash[i], a[4 - i]);
    }
  }

  lemma Begins(a: seq<Word>, h: Hash, b: seq<Word>, block: Block)
    requires a == [h[4], h[3], h[2], h[1], h[0]] && b == block
    ensures Holds(a, 0, Rounds(h, block, 0)) && Scheduled(b, block, 0)
  {
  }

  lemma RoundsStep(h: Hash, block: Block, t: nat)
    ensures Rounds(h, block, t + 1) == Round(Rounds(h, block, t), t, W(block, t))
  {
    hide Round, W;
  }

  lemma Ends(a: seq<Word>, h: Hash, block: Block)
    requires Holds(a, 80, Rounds(h, block, 80))
    ensures Compress(h, block) == [Add(h[0], a[4]), Add(h[1], a[3]), Add(h[2], a[2]), Add(h[3], a[1]), Add(h[4], a[0])]
  {
    hide Add, Rounds;
  }

  // ----- Whole messages (sections 5.1.1, 5.2.1 and 5.3.1 of FIPS 180-4).

  function BytesWord(a: Byte, b: Byte, c: Byte, d: Byte): Word {
    0x100_0000 * a + 0x1_0000 * b + 0x100 * c + d
  }

  function WordBytes(w: Word): (s: Bytes)
    ensures |s| == 4
  {
    [w / 0x100_0000, w / 0x1_0000 % 256, w / 0x100 % 256, w % 256]
  }

  function BlockWords(s: Bytes): Block
    requires |s| == 64
  {
    seq(16, i requires 0 <= i < 16 => BytesWord(s[4 * i], s[4 * i + 1], s[4 * i + 2], s[4 * i + 3]))
  }

  function Zeros(n: nat): (z: Bytes)
    ensures |z| == n
  {
    seq(n, _ => 0)
  }

  /** The zero bytes that bring the message, the marker and the length to a multiple of 64. */
  function ZeroCount(n: nat): (k: nat)
    ensures (n + 1 + k + 8) % 64 == 0 && k < 64
  {
    if n % 64 <= 55 then 55 - n % 64 else 119 - n % 64
  }

  function Padded(msg: Bytes): (p: Bytes)
    requires |msg| < 0x2000_0000
    ensures |p| % 64 == 0
  {
    msg + [0x80] + Zeros(ZeroCount(|msg|)) + Zeros(4) + WordBytes(8 * |msg|)
  }

  function Blocks(s: Bytes): seq<Block>
    requires |s| % 64 == 0
    decreases |s|
  {
    if |s| < 64 then [] else [BlockWords(s[..64])] + Blocks(s[64..])
  }

  /** Each block is hashed on top of the ones before it. */
  function HashBlocks(compress: (Hash, Block) -> Hash, h: Hash, blocks: seq<Block>): Hash
    decreases |blocks|
  {
    if blocks == [] then h else HashBlocks(compress, compress(h, blocks[0]), blocks[1..])
  }

  const INITIAL: Hash := [0x67452301, 0xefcdab89, 0x98badcfe, 0x10325476, 0xc3d2e1f0]

  function HashBytes(h: Hash): (s: Bytes)
    ensures |s| == 20
  {
    WordBytes(h[0]) + WordBytes(h[1]) + WordBytes(h[2]) + WordBytes(h[3]) + WordBytes(h[4])
  }

  function Sha1(msg: Bytes): Bytes
    requires |msg| < 0x2000_0000
  {
    HashBytes(HashBlocks(Compress, INITIAL, Blocks(Padded(msg))))
  }

  /** 258EAFA5-E914-47DA-95CA-C5AB0DC85B11. */
  const GUID: Bytes := [
    0x32, 0x35, 0x38, 0x45, 0x41, 0x46, 0x41, 0x35, 0x2d, 0x45, 0x39, 0x31, 0x34, 0x2d, 0x34, 0x37, 0x44, 0x41,
    0x2d, 0x39, 0x35, 0x43, 0x41, 0x2d, 0x43, 0x35, 0x41, 0x42, 0x30, 0x44, 0x43, 0x38, 0x35, 0x42, 0x31, 0x31]

  function Octets(s: Bytes): (t: seq<bv8>)
    ensures |t| == |s|
  {
    seq(|s|, i requires 0 <= i < |s| => s[i] as bv8)
  }

  /** The value of Sec-WebSocket-Accept (section 4.2.2 of RFC 6455). */
  function AcceptValue(key: Bytes): seq<bv8>
    requires |key| < 0x1000_0000
  {
    Base64.Encode(Octets(Sha1(key + GUID)))
  }

  // ----- generate.

  /** What strncpy of at most 24 characters leaves: the text up to its NUL, filled up with NULs. */
  function Copied(key: Bytes, n: nat): (s: Bytes)
    ensures |s| == n
    decreases n
  {
    if n == 0 then [] else if key == [] || key[0] == 0 then Zeros(n) else [key[0]] + Copied(key[1..], n - 1)
  }

  /** A key of exactly n bytes without NUL is copied as it is. */
  lemma {:induction false} CopiedWhole(key: Bytes)
    requires 0 !in key
    ensures Copied(key, |key|) == key
    decreases |key|
  {
    if key != [] {
      assert key[0] in key;
      assert forall c | c in key[1..] :: c in key;
      CopiedWhole(key[1..]);
      assert key == [key[0]] + key[1..];
    }
  }

  const FIRST: seq<Word> := [0x32353845, 0x41464135, 0x2d453931, 0x342d3437, 0x44412d39, 0x3543412d, 0x43354142,
                             0x30444338, 0x35423131, 0x80000000]

  lemma GuidWords()
    ensures |GUID| == 36 && |FIRST| == 10
    ensures forall j | 0 <= j < 9 ::
      BytesWord(GUID[4 * j], GUID[4 * j + 1], GUID[4 * j + 2], GUID[4 * j + 3]) == FIRST[j]
    ensures BytesWord(0x80, 0, 0, 0) == FIRST[9]
  {
    GuidFront();
    hide BytesWord;
    GuidBack();
  }

  lemma GuidFront()
    ensures |GUID| == 36 && |FIRST| == 10 && BytesWord(0x80, 0, 0, 0) == FIRST[9]
    ensures forall j | 0 <= j < 4 ::
      BytesWord(GUID[4 * j], GUID[4 * j + 1], GUID[4 * j + 2], GUID[4 * j + 3]) == FIRST[j]
  {
  }

  lemma GuidBack()
    ensures |GUID| == 36 && |FIRST| == 10
    ensures forall j | 4 <= j < 9 ::
      BytesWord(GUID[4 * j], GUID[4 * j + 1], GUID[4 * j + 2], GUID[4 * j + 3]) == FIRST[j]
  {
  }

  /** The two blocks of a 60-byte message: the message and the marker, then zeros and the length. */
  lemma PaddedSixty(msg: Bytes)
    requires |msg| == 60
    ensures Padded(msg) == (msg + [0x80, 0, 0, 0]) + (Zeros(60) + [0, 0, 1, 224])
  {
    assert ZeroCount(60) == 59;
    assert WordBytes(480) == [0, 0, 1, 224];
    var p, q := Padded(msg), (msg + [0x80, 0, 0, 0]) + (Zeros(60) + [0, 0, 1, 224]);
    assert |p| == |q|;
    forall i | 0 <= i < |p| ensures p[i] == q[i] {
    }
  }

  lemma TwoBlocks(s: Bytes, t: Bytes)
    requires |s| == 64 && |t| == 64
    ensures Blocks(s + t) == [BlockWords(s), BlockWords(t)]
  {
    hide BlockWords;
    assert (s + t)[..64] == s && (s + t)[64..] == t && t[..64] == t && t[64..] == [];
    assert Blocks([]) == [];
  }

  lemma LengthBlock()
    ensures BlockWords(Zeros(60) + [0, 0, 1, 224]) == [0, 0, 0, 0, 0, 0, 0, 0, 0, 0, 0, 0, 0, 0, 0, 480]
  {
    var s := Zeros(60) + [0, 0, 1, 224];
    forall i | 0 <= i < 15 ensures BlockWords(s)[i] == 0 {
      assert s[4 * i] == 0 && s[4 * i + 1] == 0 && s[4 * i + 2] == 0 && s[4 * i + 3] == 0;
    }
  }

  /** The words that generate puts into its first block. */
  lemma FirstBlock(key: Bytes, words: seq<Word>)
    requires |key| == 24 && |words| == 16
    requires forall i | 0 <= i < 6 :: words[i] == BytesWord(key[4 * i], key[4 * i + 1], key[4 * i + 2], key[4 * i + 3])
    requires words[6..] == FIRST
    ensures words == BlockWords(key + GUID + [0x80, 0, 0, 0])
  {
    hide BytesWord;
    GuidWords();
    var s := key + GUID + [0x80, 0, 0, 0];
    forall i | 0 <= i < 16 ensures words[i] == BlockWords(s)[i] {
      if i < 6 {
        assert s[4 * i..4 * i + 4] == key[4 * i..4 * i + 4];
      } else {
        assert words[i] == words[6..][i - 6];
      }
    }
  }

  lemma TwoCompressions(compress: (Hash, Block) -> Hash, h: Hash, a: Block, b: Block)
    ensures HashBlocks(compress, h, [a, b]) == compress(compress(h, a), b)
  {
    assert [a, b][1..] == [b] && [b][1..] == [];
    assert HashBlocks(compress, h, [a, b]) == HashBlocks(compress, compress(h, a), [b]);
  }

  /** Hashing the two blocks one after the other is hashing the message. */
  lemma TwoHashes(msg: Bytes, first: Block, last: Block)
    requires |msg| == 60 && first == BlockWords(msg + [0x80, 0, 0, 0])
    requires last == [0, 0, 0, 0, 0, 0, 0, 0, 0, 0, 0, 0, 0, 0, 0, 480]
    ensures Sha1(msg) == HashBytes(Compress(Compress(INITIAL, first), last))
  {
    hide Compress, Padded, BlockWords, HashBytes, Zeros, Blocks;
    PaddedSixty(msg);
    TwoBlocks(msg + [0x80, 0, 0, 0], Zeros(60) + [0, 0, 1, 224]);
    LengthBlock();
    TwoCompressions(Compress, INITIAL, first, last);
  }

  /** The four characters of three bytes, and those of the last two. */
  function KeyGroup(a: bv8, b: bv8, c: bv8): seq<bv8> {
    [Base64.Char((a >> 2) & 63), Base64.Char(((a & 3) << 4) | ((b & 240) >> 4)),
     Base64.Char(((b & 15) << 2) | ((c & 192) >> 6)), Base64.Char(c & 63)]
  }

  function KeyGroupLast(a: bv8, b: bv8): seq<bv8> {
    [Base64.Char((a >> 2) & 63), Base64.Char(((a & 3) << 4) | ((b & 240) >> 4)),
     Base64.Char((b & 15) << 2), Base64.PADDING]
  }

  /** The base64 of the source: 20 bytes, six whole groups and one of two bytes. */
  method Base64Of20(src: seq<bv8>) returns (dst: seq<bv8>)
    requires |src| == 20
    ensures dst == Base64.Encode(src)
  {
    dst := [];
    assert src[0..] == src && [] + Base64.Encode(src) == Base64.Encode(src);
    for k := 0 to 6
      invariant dst + Base64.Encode(src[3 * k..]) == Base64.Encode(src)
    {
      hide Base64.Encode, Base64.EncodeGroup, KeyGroup;
      var i := 3 * k;
      KeyTables(src[i], src[i + 1], src[i + 2]);
      Base64.EncodeNext(dst, src, i);
      dst := dst + KeyGroup(src[i], src[i + 1], src[i + 2]);
    }
    hide Base64.Encode, Base64.EncodeGroup, KeyGroupLast;
    KeyTablesLast(src[18], src[19]);
    assert src[18..] == [src[18], src[19]];
    Base64.EncodeShort(src[18..]);
    dst := dst + KeyGroupLast(src[18], src[19]);
  }

  lemma KeyDigits(a: bv8, b: bv8, c: bv8)
    ensures (a >> 2) & 63 == Base64.GroupDigit(Base64.Group(a, b, c), 0)
    ensures ((a & 3) << 4) | ((b & 240) >> 4) == Base64.GroupDigit(Base64.Group(a, b, c), 1)
    ensures ((b & 15) << 2) | ((c & 192) >> 6) == Base64.GroupDigit(Base64.Group(a, b, c), 2)
    ensures c & 63 == Base64.GroupDigit(Base64.Group(a, b, c), 3)
    ensures (b & 15) << 2 == Base64.GroupDigit(Base64.Group(a, b, 0), 2)
  {
  }

  lemma KeyTables(a: bv8, b: bv8, c: bv8)
    ensures Base64.EncodeGroup([a, b, c]) == KeyGroup(a, b, c)
  {
    hide Base64.Char, Base64.Group, Base64.GroupDigit;
    KeyDigits(a, b, c);
  }

  lemma KeyTablesLast(a: bv8, b: bv8)
    ensures Base64.EncodeGroup([a, b]) == KeyGroupLast(a, b)
  {
    hide Base64.Char, Base64.Group, Base64.GroupDigit;
    KeyDigits(a, b, 0);
  }

  /** The first block: the key, the fixed words of the GUID, and the marker. */
  method KeyBlock(input: Bytes) returns (bInput: array<Word>)
    requires |input| >= 24
    ensures fresh(bInput) && bInput.Length == 16
    ensures bInput[..] == BlockWords(input[..24] + GUID + [0x80, 0, 0, 0])
  {
    hide BytesWord, BlockWords;
    GuidWords();
    bInput := new Word[16](i requires 0 <= i < 16 => if i < 6 then 0 else FIRST[i - 6]);
    assert bInput[6..] == FIRST;
    for i := 0 to 6
      invariant bInput[6..] == FIRST
      invariant forall j | 0 <= j < i ::
        bInput[j] == BytesWord(input[4 * j], input[4 * j + 1], input[4 * j + 2], input[4 * j + 3])
    {
      bInput[i] := BytesWord(input[4 * i], input[4 * i + 1], input[4 * i + 2], input[4 * i + 3]);
    }
    FirstBlock(input[..24], bInput[..]);
  }

  /** generate: for every key the accept value of what strncpy made of it; for a key of 24 characters,
      as every client sends, its own. */
  method Generate(inputStr: Bytes) returns (output: seq<bv8>)
    ensures output == AcceptValue(Copied(inputStr, 24))
    ensures |inputStr| == 24 && 0 !in inputStr ==> output == AcceptValue(inputStr)
  {
    hide Compress, Base64.Encode, Sha1, BlockWords, HashBytes, Octets, Copied;
    var input := Copied(inputStr, 24) + [0];
    ghost var key := Copied(inputStr, 24);
    assert input[..24] == key;
    var bOutput := new Word[5](i requires 0 <= i < 5 => INITIAL[i]);
    assert bOutput[..] == INITIAL;
    var bInput := KeyBlock(input);
    ghost var first := bInput[..];
    Sha1InPlace(bOutput, bInput);
    var lastB := new Word[16](i => if i == 15 then 480 else 0);
    ghost var last := lastB[..];
    assert last == [0, 0, 0, 0, 0, 0, 0, 0, 0, 0, 0, 0, 0, 0, 0, 480];
    Sha1InPlace(bOutput, lastB);
    TwoHashes(key + GUID, first, last);
    var bytes := HashBytes(bOutput[..]);
    output := Base64Of20(Octets(bytes));
    if |inputStr| == 24 && 0 !in inputStr {
      CopiedWhole(inputStr);
    }
  }
}
