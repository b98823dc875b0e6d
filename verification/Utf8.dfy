/** The table-driven UTF-8 validator against the grammar of section 4 of RFC 3629. */
module Utf8 {
  import opened Bits
  import opened Numbers

  const ACCEPT: nat := 0
  const REJECT: nat := 1

  function Rep(v: nat, n: nat): seq<nat> {
    seq(n, _ => v)
  }

  /** The first 256 entries of utf8d, row by row: the class of every byte. */
  const BYTE_CLASS: seq<nat> :=
    Rep(0, 128)                                            // 00..7f
    + Rep(1, 16) + Rep(9, 16) + Rep(7, 32)                 // 80..bf
    + Rep(8, 2) + Rep(2, 30)                               // c0..df
    + [0xa] + Rep(3, 12) + [4, 3, 3]                       // e0..ef
    + [0xb, 6, 6, 6, 5] + Rep(8, 11)                       // f0..ff

  /** The other entries of utf8d: sixteen successor states for each of the nine states. */
  const NEXT_STATE: seq<seq<nat>> := [
    [0, 1, 2, 3, 5, 8, 7, 1, 1, 1, 4, 6, 1, 1, 1, 1],
    [1, 1, 1, 1, 1, 1, 1, 1, 1, 1, 1, 1, 1, 1, 1, 1],
    [1, 0, 1, 1, 1, 1, 1, 0, 1, 0, 1, 1, 1, 1, 1, 1],
    [1, 2, 1, 1, 1, 1, 1, 2, 1, 2, 1, 1, 1, 1, 1, 1],
    [1, 1, 1, 1, 1, 1, 1, 2, 1, 1, 1, 1, 1, 1, 1, 1],
    [1, 2, 1, 1, 1, 1, 1, 1, 1, 2, 1, 1, 1, 1, 1, 1],
    [1, 1, 1, 1, 1, 1, 1, 3, 1, 3, 1, 1, 1, 1, 1, 1],
    [1, 3, 1, 1, 1, 1, 1, 3, 1, 3, 1, 1, 1, 1, 1, 1],
    [1, 3, 1, 1, 1, 1, 1, 1, 1, 1, 1, 1, 1, 1, 1, 1]]

  // ----- The grammar.

  predicate Tail(b: Byte) {
    0x80 <= b <= 0xBF
  }

  /** UTF8-1, UTF8-2, UTF8-3 and UTF8-4. */
  predicate IsChar(c: Bytes) {
    || (|c| == 1 && c[0] <= 0x7F)
    || (|c| == 2 && 0xC2 <= c[0] <= 0xDF && Tail(c[1]))
    || (|c| == 3 && Tail(c[2]) && (
          || (c[0] == 0xE0 && 0xA0 <= c[1] <= 0xBF)
          || (0xE1 <= c[0] <= 0xEC && Tail(c[1]))
          || (c[0] == 0xED && 0x80 <= c[1] <= 0x9F)
          || (0xEE <= c[0] <= 0xEF && Tail(c[1]))))
    || (|c| == 4 && Tail(c[2]) && Tail(c[3]) && (
          || (c[0] == 0xF0 && 0x90 <= c[1] <= 0xBF)
          || (0xF1 <= c[0] <= 0xF3 && Tail(c[1]))
          || (c[0] == 0xF4 && 0x80 <= c[1] <= 0x8F)))
  }

  /** UTF8-octets: any number of characters. */
  ghost predicate WellFormed(s: Bytes) {
    s == [] || exists n: nat :: 1 <= n <= 4 && n <= |s| && IsChar(s[..n]) && WellFormed(s[n..])
  }

  /** Scalar values, and their encodings (section 3 of RFC 3629). */
  predicate IsScalar(v: nat) {
    v <= 0x10FFFF && !(0xD800 <= v <= 0xDFFF)
  }

  function Encode(v: nat): Bytes
    requires IsScalar(v)
  {
    if v < 0x80 then [v]
    else if v < 0x800 then [0xC0 + v / 64, 0x80 + v % 64]
    else if v < 0x1_0000 then [0xE0 + v / 4096, 0x80 + v / 64 % 64, 0x80 + v % 64]
    else [0xF0 + v / 262144, 0x80 + v / 4096 % 64, 0x80 + v / 64 % 64, 0x80 + v % 64]
  }

  // ----- The automaton.

  /** What the table says about a byte, written as ranges. */
  function Class(b: Byte): (t: nat)
    ensures t < 16
  {
    if b < 0x80 then 0 else if b < 0x90 then 1 else if b < 0xA0 then 9 else if b < 0xC0 then 7
    else if b < 0xC2 then 8 else if b < 0xE0 then 2
    else if b == 0xE0 then 0xa else if b == 0xED then 4 else if b < 0xF0 then 3
    else if b == 0xF0 then 0xb else if b < 0xF4 then 6 else if b == 0xF4 then 5 else 8
  }

  lemma ClassIsTable(b: Byte)
    ensures |BYTE_CLASS| == 256 && BYTE_CLASS[b] == Class(b)
  {
  }

  function Next(state: nat, b: Byte): (s: nat)
    requires state < 9
    ensures s < 9
  {
    NEXT_STATE[state][Class(b)]
  }

  /** The codepoint after one more byte, on 32 bits. */
  function NextCodepoint(state: nat, codepoint: nat, b: Byte): nat {
    if state != ACCEPT then b % 64 + codepoint * 64 % 0x1_0000_0000
    else And(Shr(0xff, Class(b)), b)
  }

  /** The state after a whole string. */
  function Run(state: nat, s: Bytes): (r: nat)
    requires state < 9
    ensures r < 9
    decreases |s|
  {
    if s == [] then state else Run(Next(state, s[0]), s[1..])
  }

  function RunCodepoint(state: nat, codepoint: nat, s: Bytes): nat
    requires state < 9
    decreases |s|
  {
    if s == [] then codepoint else RunCodepoint(Next(state, s[0]), NextCodepoint(state, codepoint, s[0]), s[1..])
  }

  /** Reject is absorbing. */
  lemma {:induction false} RejectAbsorbs(s: Bytes)
    ensures Run(REJECT, s) == REJECT
  {
    if s != [] {
      RejectAbsorbs(s[1..]);
    }
  }

  /** The rows of the table, as ranges. */
  lemma Rows(b: Byte)
    ensures Next(0, b) ==
      if b < 0x80 then 0 else if b < 0xC2 then 1 else if b < 0xE0 then 2
      else if b == 0xE0 then 4 else if b == 0xED then 5 else if b < 0xF0 then 3
      else if b == 0xF0 then 6 else if b < 0xF4 then 7 else if b == 0xF4 then 8 else 1
    ensures Next(1, b) == 1
    ensures Next(2, b) == if Tail(b) then 0 else 1
    ensures Next(3, b) == if Tail(b) then 2 else 1
    ensures Next(4, b) == if 0xA0 <= b <= 0xBF then 2 else 1
    ensures Next(5, b) == if 0x80 <= b <= 0x9F then 2 else 1
    ensures Next(6, b) == if 0x90 <= b <= 0xBF then 3 else 1
    ensures Next(7, b) == if Tail(b) then 3 else 1
    ensures Next(8, b) == if 0x80 <= b <= 0x8F then 3 else 1
  {
  }

  lemma Step(state: nat, s: Bytes, i: nat)
    requires state < 9 && i < |s|
    ensures Run(state, s[i..]) == Run(Next(state, s[i]), s[i + 1..])
  {
    assert s[i..][1..] == s[i + 1..];
  }

  /** The length of the character that a lead byte starts; 0 when it starts none. */
  function CharLen(b: Byte): nat {
    if b < 0x80 then 1 else if b < 0xC2 then 0 else if b < 0xE0 then 2 else if b < 0xF0 then 3
    else if b < 0xF5 then 4 else 0
  }

  lemma CharLenUnique(s: Bytes, n: nat)
    requires n <= |s| && IsChar(s[..n])
    ensures n == CharLen(s[0]) >= 1
  {
  }

  /** From accept the automaton reads exactly one character and is back in accept, or cannot accept. */
  lemma RunChar(s: Bytes)
    requires s != []
    ensures var n := CharLen(s[0]);
            if 1 <= n <= |s| && IsChar(s[..n]) then Run(ACCEPT, s) == Run(ACCEPT, s[n..]) else Run(ACCEPT, s) != ACCEPT
  {
    hide Next;
    var n := CharLen(s[0]);
    assert s[0..] == s;
    Rows(s[0]);
    Step(0, s, 0);
    RejectAbsorbs(s[1..]);
    var s1 := Next(0, s[0]);
    if n >= 2 && |s| >= 2 {
      Rows(s[1]);
      Step(s1, s, 1);
      RejectAbsorbs(s[2..]);
      var s2 := Next(s1, s[1]);
      if n >= 3 && |s| >= 3 {
        Rows(s[2]);
        Step(s2, s, 2);
        RejectAbsorbs(s[3..]);
        if n == 4 && |s| >= 4 {
          Rows(s[3]);
          Step(Next(s2, s[2]), s, 3);
          RejectAbsorbs(s[4..]);
        }
      }
    }
  }

  /** The automaton ends in accept exactly on the well-formed strings. */
  lemma {:induction false} AcceptsWellFormed(s: Bytes)
    ensures Run(ACCEPT, s) == ACCEPT <==> WellFormed(s)
    decreases |s|
  {
    hide Run, IsChar;
    if s == [] {
      RunEmpty(ACCEPT);
    } else {
      RunChar(s);
      var n := CharLen(s[0]);
      if 1 <= n <= |s| && IsChar(s[..n]) {
        AcceptsWellFormed(s[n..]);
      }
      if WellFormed(s) {
        var m: nat :| 1 <= m <= 4 && m <= |s| && IsChar(s[..m]) && WellFormed(s[m..]);
        CharLenUnique(s, m);
      }
    }
  }

  lemma RunEmpty(state: nat)
    requires state < 9
    ensures Run(state, []) == state
  {
  }

  lemma Low2(n: nat)
    ensures Low(n, 2) == n % 4
  {
    assert Low(n / 2, 1) == n / 2 % 2;
  }

  lemma LowStep(n: nat, k: nat)
    ensures Low(n, k + 1) == 2 * Low(n / 2, k) + n % 2
  {
  }

  lemma Low3(n: nat)
    ensures Low(n, 3) == n % 8
  {
    hide Low, Pow2;
    LowStep(n, 2);
    Low2(n / 2);
    assert n == 8 * (n / 2 / 4) + (2 * (n / 2 % 4) + n % 2);
  }

  lemma Low4(n: nat)
    ensures Low(n, 4) == n % 16
  {
    hide Low, Pow2;
    LowStep(n, 3);
    Low3(n / 2);
    assert n == 16 * (n / 2 / 8) + (2 * (n / 2 % 8) + n % 2);
  }

  lemma Low5(n: nat)
    ensures Low(n, 5) == n % 32
  {
    hide Low, Pow2;
    LowStep(n, 4);
    Low4(n / 2);
    assert n == 32 * (n / 2 / 16) + (2 * (n / 2 % 16) + n % 2);
  }

  lemma Low6(n: nat)
    ensures Low(n, 6) == n % 64
  {
    hide Low, Pow2;
    LowStep(n, 5);
    Low5(n / 2);
    assert n == 64 * (n / 2 / 32) + (2 * (n / 2 % 32) + n % 2);
  }

  /** The mask 0xff >> t keeps the lowest 8 - t bits. */
  lemma MaskedLead(b: Byte, t: nat)
    requires t <= 8
    ensures And(Shr(0xff, t), b) == Low(b, 8 - t)
  {
    ShrMask(t);
    AndMask(b, 8 - t);
  }

  lemma {:induction false} ShrMask(t: nat)
    requires t <= 8
    ensures Shr(0xff, t) == Pow2(8 - t) - 1
  {
    ShrOnes(8, t);
    Pow2Table();
  }

  lemma {:induction false} ShrOnes(k: nat, t: nat)
    requires t <= k
    ensures Shr(Pow2(k) - 1, t) == Pow2(k - t) - 1
  {
    if t > 0 {
      assert (Pow2(k) - 1) / 2 == Pow2(k - 1) - 1;
      ShrOnes(k - 1, t - 1);
    }
  }

  /** The bits of a lead byte that belong to the codepoint. */
  lemma LeadBits(b: Byte)
    ensures b < 0x80 ==> And(Shr(0xff, Class(b)), b) == b
    ensures 0xC2 <= b <= 0xDF ==> And(Shr(0xff, Class(b)), b) == b - 0xC0
    ensures 0xE0 <= b <= 0xEF ==> And(Shr(0xff, Class(b)), b) == b - 0xE0
    ensures 0xF0 <= b <= 0xF4 ==> And(Shr(0xff, Class(b)), b) == b - 0xF0
  {
    hide And, Shr, Low, Pow2;
    if Class(b) <= 8 {
      MaskedLead(b, Class(b));
      Pow2Table();
      Low2(b);
      Low3(b);
      Low4(b);
      Low5(b);
      Low6(b);
      LowId(b, 8);
    } else {
      ShrTooFar(b);
    }
  }

  lemma ShrTooFar(b: Byte)
    ensures And(Shr(0xff, 10), b) == 0 && And(Shr(0xff, 11), b) == 0
  {
    ShrMask(8);
    assert Shr(0xff, 8) == 0;
    ShrSplit(0xff, 8, 2);
    ShrSplit(0xff, 8, 3);
    assert Shr(0, 2) == 0 && Shr(0, 3) == 0;
  }

  lemma {:induction false} ShrSplit(n: nat, j: nat, k: nat)
    ensures Shr(n, j + k) == Shr(Shr(n, j), k)
  {
    if j > 0 {
      ShrSplit(n / 2, j - 1, k);
    }
  }

  lemma CodepointStep(state: nat, codepoint: nat, s: Bytes, i: nat)
    requires state < 9 && i <= |s|
    ensures RunCodepoint(state, codepoint, s[i..]) ==
      if i == |s| then codepoint
      else RunCodepoint(Next(state, s[i]), NextCodepoint(state, codepoint, s[i]), s[i + 1..])
  {
    if i < |s| {
      assert s[i..][1..] == s[i + 1..];
    }
  }

  /** The number that the payload bits of a character stand for. */
  function Value(c: Bytes): int
    requires IsChar(c)
  {
    var lead: int := c[0];
    if |c| == 1 then lead
    else
      var b1: int := c[1] - 0x80;
      if |c| == 2 then Digits2(lead - 0xC0, b1)
      else
        var b2: int := c[2] - 0x80;
        if |c| == 3 then Digits3(lead - 0xE0, b1, b2)
        else
          var b3: int := c[3] - 0x80;
          Digits4(lead - 0xF0, b1, b2, b3)
  }

  function Digits2(a: int, b: int): int {
    64 * a + b
  }

  function Digits3(a: int, b: int, c: int): int {
    Digits2(Digits2(a, b), c)
  }

  function Digits4(a: int, b: int, c: int, d: int): int {
    Digits2(Digits3(a, b, c), d)
  }

  lemma Digits2Unique(a: int, b: int)
    requires 0 <= b < 64
    ensures Digits2(a, b) / 64 == a && Digits2(a, b) % 64 == b
  {
  }

  lemma Digits3Unique(a: int, b: int, c: int)
    requires 0 <= b < 64 && 0 <= c < 64
    ensures var v := Digits3(a, b, c); v / 4096 == a && v / 64 % 64 == b && v % 64 == c
  {
    Digits2Unique(a, b);
    Digits2Unique(Digits2(a, b), c);
  }

  lemma Digits4Unique(a: int, b: int, c: int, d: int)
    requires 0 <= b < 64 && 0 <= c < 64 && 0 <= d < 64
    ensures var v := Digits4(a, b, c, d); v / 262144 == a && v / 4096 % 64 == b && v / 64 % 64 == c && v % 64 == d
  {
    Digits3Unique(a, b, c);
    Digits2Unique(Digits3(a, b, c), d);
  }

  /** The payload of a character is a scalar value, and the character is its encoding. */
  lemma CharIsEncoding(c: Bytes)
    requires IsChar(c)
    ensures Value(c) >= 0 && IsScalar(Value(c)) && Encode(Value(c)) == c
  {
    if |c| == 2 {
      Digits2Unique(c[0] - 0xC0, c[1] - 0x80);
    } else if |c| == 3 {
      Char3(c);
    } else if |c| == 4 {
      Char4(c);
    }
  }

  lemma Char3(c: Bytes)
    requires IsChar(c) && |c| == 3
    ensures Value(c) >= 0 && IsScalar(Value(c)) && Encode(Value(c)) == c
  {
    var v := Digits3(c[0] - 0xE0, c[1] - 0x80, c[2] - 0x80);
    Digits3Unique(c[0] - 0xE0, c[1] - 0x80, c[2] - 0x80);
    assert Value(c) == v;
    assert 0x800 <= v < 0x1_0000 && !(0xD800 <= v <= 0xDFFF);
  }

  lemma Char4(c: Bytes)
    requires IsChar(c) && |c| == 4
    ensures Value(c) >= 0 && IsScalar(Value(c)) && Encode(Value(c)) == c
  {
    Range4(c);
    hide Digits4;
    Digits4Unique(c[0] - 0xF0, c[1] - 0x80, c[2] - 0x80, c[3] - 0x80);
  }

  lemma Range4(c: Bytes)
    requires IsChar(c) && |c| == 4
    ensures Value(c) == Digits4(c[0] - 0xF0, c[1] - 0x80, c[2] - 0x80, c[3] - 0x80)
    ensures 0x1_0000 <= Value(c) <= 0x10FFFF
  {
  }

  /** A continuation byte appends six bits; nothing is lost as long as the codepoint has at most 26. */
  lemma ContinuationCodepoint(state: nat, codepoint: nat, b: Byte)
    requires state != ACCEPT && Tail(b) && codepoint < 0x400_0000
    ensures NextCodepoint(state, codepoint, b) == Digits2(codepoint, b - 0x80)
  {
  }

  /** Reading one character leaves its payload in the codepoint. */
  lemma CodepointIsValue(c: Bytes, codepoint: nat)
    requires IsChar(c)
    ensures RunCodepoint(ACCEPT, codepoint, c) == Value(c)
  {
    hide Next, And, Shr, Class, RunCodepoint, Digits2, NextCodepoint;
    assert c[0..] == c;
    CodepointStep(ACCEPT, codepoint, c, 0);
    Rows(c[0]);
    LeadCodepoint(codepoint, c[0]);
    var s1, p1 := Next(ACCEPT, c[0]), NextCodepoint(ACCEPT, codepoint, c[0]);
    CodepointStep(s1, p1, c, 1);
    if |c| >= 2 {
      Rows(c[1]);
      ContinuationCodepoint(s1, p1, c[1]);
      var s2, p2 := Next(s1, c[1]), NextCodepoint(s1, p1, c[1]);
      CodepointStep(s2, p2, c, 2);
      if |c| >= 3 {
        Rows(c[2]);
        Digits2Bound(p1, c[1] - 0x80, 0x20);
        ContinuationCodepoint(s2, p2, c[2]);
        var s3, p3 := Next(s2, c[2]), NextCodepoint(s2, p2, c[2]);
        CodepointStep(s3, p3, c, 3);
        if |c| == 4 {
          Rows(c[3]);
          Digits2Bound(p2, c[2] - 0x80, 0x800);
          ContinuationCodepoint(s3, p3, c[3]);
          CodepointStep(Next(s3, c[3]), NextCodepoint(s3, p3, c[3]), c, 4);
        }
      }
    }
  }

  lemma Digits2Bound(a: int, b: int, m: nat)
    requires 0 <= a < m && 0 <= b < 64
    ensures 0 <= Digits2(a, b) < 64 * m
  {
  }

  /** The payload of the lead byte. */
  lemma LeadCodepoint(codepoint: nat, b: Byte)
    requires CharLen(b) >= 1
    ensures NextCodepoint(ACCEPT, codepoint, b) ==
      if b < 0x80 then b else if b < 0xE0 then b - 0xC0 else if b < 0xF0 then b - 0xE0 else b - 0xF0
  {
    hide And, Shr, Class;
    LeadBits(b);
  }

  lemma IsCharAccepted(c: Bytes)
    requires IsChar(c)
    ensures Run(ACCEPT, c) == ACCEPT
  {
    hide IsChar;
    assert c[..|c|] == c && c[|c|..] == [];
    CharLenUnique(c, |c|);
    RunChar(c);
    RunEmpty(ACCEPT);
  }

  /** Reading one character ends in accept with, in the codepoint, the scalar value whose encoding was read. */
  lemma CharCodepoint(c: Bytes, codepoint: nat)
    requires IsChar(c)
    ensures Run(ACCEPT, c) == ACCEPT
    ensures IsScalar(RunCodepoint(ACCEPT, codepoint, c)) && Encode(RunCodepoint(ACCEPT, codepoint, c)) == c
  {
    hide Run, RunCodepoint, IsChar, Encode, IsScalar, Value;
    IsCharAccepted(c);
    CodepointIsValue(c, codepoint);
    CharIsEncoding(c);
  }

  lemma EncodeIsChar(v: nat)
    requires IsScalar(v)
    ensures IsChar(Encode(v))
  {
    if v < 0x800 {
      EncodeShort(v);
    } else if v < 0x1_0000 {
      EncodeThree(v);
    } else {
      EncodeLong(v);
    }
  }

  lemma EncodeShort(v: nat)
    requires IsScalar(v) && v < 0x800
    ensures IsChar(Encode(v))
  {
  }

  lemma EncodeThree(v: nat)
    requires IsScalar(v) && 0x800 <= v < 0x1_0000
    ensures IsChar(Encode(v))
  {
  }

  lemma EncodeLong(v: nat)
    requires IsScalar(v) && v >= 0x1_0000
    ensures IsChar(Encode(v))
  {
  }

  lemma EncodeInjective(v: nat, w: nat)
    requires IsScalar(v) && IsScalar(w) && Encode(v) == Encode(w)
    ensures v == w
  {
    EncodeIsChar(v);
    EncodeIsChar(w);
    EncodeValue(v);
    EncodeValue(w);
  }

  lemma EncodeValue(v: nat)
    requires IsScalar(v)
    ensures IsChar(Encode(v)) && Value(Encode(v)) == v
  {
    EncodeIsChar(v);
    assert v == 64 * (v / 64) + v % 64;
    assert v / 64 == 64 * (v / 64 / 64) + v / 64 % 64;
    assert v / 64 / 64 == v / 4096;
    assert v / 4096 == 64 * (v / 4096 / 64) + v / 4096 % 64;
    assert v / 4096 / 64 == v / 262144;
  }

  /** Every scalar value is read back from its encoding. */
  lemma DecodesEncoding(v: nat, codepoint: nat)
    requires IsScalar(v)
    ensures Run(ACCEPT, Encode(v)) == ACCEPT && RunCodepoint(ACCEPT, codepoint, Encode(v)) == v
  {
    hide Run, RunCodepoint, IsChar, Encode, IsScalar;
    EncodeIsChar(v);
    CharCodepoint(Encode(v), codepoint);
    EncodeInjective(v, RunCodepoint(ACCEPT, codepoint, Encode(v)));
  }

  // ----- Whole texts.

  ghost predicate AreScalars(text: seq<nat>) {
    forall v | v in text :: IsScalar(v)
  }

  /** The encoding of a sequence of scalar values. */
  function EncodeText(text: seq<nat>): Bytes
    requires AreScalars(text)
    decreases |text|
  {
    if text == [] then [] else EncodeText(text[..|text| - 1]) + Encode(text[|text| - 1])
  }

  lemma {:induction false} RunConcat(state: nat, codepoint: nat, a: Bytes, b: Bytes)
    requires state < 9
    ensures Run(state, a + b) == Run(Run(state, a), b)
    ensures RunCodepoint(state, codepoint, a + b) == RunCodepoint(Run(state, a), RunCodepoint(state, codepoint, a), b)
    decreases |a|
  {
    hide Next, NextCodepoint;
    if a == [] {
      assert a + b == b;
    } else {
      assert (a + b)[1..] == a[1..] + b;
      RunConcat(Next(state, a[0]), NextCodepoint(state, codepoint, a[0]), a[1..], b);
    }
  }

  /** Reading an encoded text is back in accept after every scalar value, with that value in the codepoint. */
  lemma {:induction false} DecodesText(text: seq<nat>, codepoint: nat)
    requires AreScalars(text)
    ensures Run(ACCEPT, EncodeText(text)) == ACCEPT
    ensures text != [] ==> RunCodepoint(ACCEPT, codepoint, EncodeText(text)) == text[|text| - 1]
    decreases |text|
  {
    hide Encode, Run, RunCodepoint, IsScalar;
    if text == [] {
      RunEmpty(ACCEPT);
    } else {
      var last := text[|text| - 1];
      var before := EncodeText(text[..|text| - 1]);
      DecodesText(text[..|text| - 1], codepoint);
      RunConcat(ACCEPT, codepoint, before, Encode(last));
      DecodesEncoding(last, RunCodepoint(ACCEPT, codepoint, before));
    }
  }

  lemma EncodeTextCons(v: nat, text: seq<nat>)
    requires AreScalars([v] + text)
    ensures AreScalars(text) && IsScalar(v) && EncodeText([v] + text) == Encode(v) + EncodeText(text)
    decreases |text|
  {
    hide Encode, IsScalar;
    assert AreScalars(text) by {
      forall w | w in text ensures IsScalar(w) {
        assert w in [v] + text;
      }
    }
    assert v in [v] + text;
    var all := [v] + text;
    if text == [] {
      assert all == [v] && all[..0] == [];
      assert EncodeText(all[..0]) == [];
    } else {
      assert all[..|all| - 1] == [v] + text[..|text| - 1];
      EncodeTextCons(v, text[..|text| - 1]);
    }
  }

  /** The well-formed strings are exactly the encodings of texts. */
  lemma {:induction false} WellFormedIsText(s: Bytes) returns (text: seq<nat>)
    requires WellFormed(s)
    ensures AreScalars(text) && EncodeText(text) == s
    decreases |s|
  {
    hide IsChar, Encode, IsScalar, Value;
    if s == [] {
      text := [];
    } else {
      var n: nat :| 1 <= n <= 4 && n <= |s| && IsChar(s[..n]) && WellFormed(s[n..]);
      var rest := WellFormedIsText(s[n..]);
      CharIsEncoding(s[..n]);
      text := [Value(s[..n])] + rest;
      EncodeTextCons(Value(s[..n]), rest);
      assert s == s[..n] + s[n..];
    }
  }

  /** An accepted string is an encoded text, and the codepoint is its last scalar value. */
  lemma AcceptedText(s: Bytes, codepoint: nat) returns (text: seq<nat>)
    requires Run(ACCEPT, s) == ACCEPT
    ensures AreScalars(text) && EncodeText(text) == s
    ensures s != [] ==> text != [] && RunCodepoint(ACCEPT, codepoint, s) == text[|text| - 1]
  {
    hide Run, RunCodepoint, Encode, IsScalar;
    AcceptsWellFormed(s);
    text := WellFormedIsText(s);
    DecodesText(text, codepoint);
  }

  // ----- The validator.

  class Utf8Validator {
    var state: nat
    var codepoint: nat

    ghost predicate Valid()
      reads this
    {
      state < 9
    }

    constructor ()
      ensures Valid() && state == ACCEPT && codepoint == 0
    {
      state, codepoint := ACCEPT, 0;
    }

    /** decodeNextByte. */
    method DecodeNextByte(byte: Byte) returns (s: nat)
      requires Valid()
      modifies this
      ensures Valid() && s == state == Next(old(state), byte)
      ensures codepoint == NextCodepoint(old(state), old(codepoint), byte)
    {
      ClassIsTable(byte);
      var type_ := BYTE_CLASS[byte];
      codepoint := if state != ACCEPT then byte % 64 + codepoint * 64 % 0x1_0000_0000 else And(Shr(0xff, type_), byte);
      state := NEXT_STATE[state][type_];
      return state;
    }

    /** decode: stops at the first byte that makes the input invalid. */
    method Decode(s: Bytes) returns (ok: bool)
      requires Valid()
      modifies this
      ensures Valid()
      ensures ok ==> state == Run(old(state), s) && codepoint == RunCodepoint(old(state), old(codepoint), s)
      ensures s != [] ==> ok == (Run(old(state), s) != REJECT)
      ensures s == [] ==> ok
    {
      hide Next, NextCodepoint;
      assert s[0..] == s;
      var i := 0;
      while i < |s|
        invariant i <= |s| && Valid()
        invariant i > 0 ==> state != REJECT
        invariant Run(old(state), s) == Run(state, s[i..])
        invariant RunCodepoint(old(state), old(codepoint), s) == RunCodepoint(state, codepoint, s[i..])
      {
        Step(state, s, i);
        assert s[i..][1..] == s[i + 1..];
        var result := DecodeNextByte(s[i]);
        i := i + 1;
        if result == REJECT {
          RejectAbsorbs(s[i..]);
          return false;
        }
      }
      return true;
    }

    method Complete() returns (c: bool)
      ensures c == (state == ACCEPT)
    {
      c := state == ACCEPT;
    }
  }

  /** validateUtf8. */
  method ValidateUtf8(s: Bytes) returns (ok: bool)
    ensures ok == WellFormed(s)
  {
    AcceptsWellFormed(s);
    var v := new Utf8Validator();
    var decoded := v.Decode(s);
    if !decoded {
      return false;
    }
    ok := v.Complete();
  }
}
