/** Table-driven base64 against section 4 of RFC 4648. */
module Base64 {
  import opened Octets

  const PADDING: bv8 := 61

  // ----- The alphabet.

  function Char(v: bv8): bv8 {
    if v < 26 then v + 65 else if v < 52 then v + 71 else if v < 62 then v - 4 else if v == 62 then 43 else 47
  }

  predicate InAlphabet(c: bv8) {
    65 <= c <= 90 || 97 <= c <= 122 || 48 <= c <= 57 || c == 43 || c == 47
  }

  function Digit(c: bv8): bv8 {
    if c == 43 then 62 else if c == 47 then 63 else if c < 58 then c + 4 else if c < 91 then c - 65 else c - 71
  }

  lemma DigitOfChar(v: bv8)
    requires v < 64
    ensures InAlphabet(Char(v)) && Digit(Char(v)) == v && Char(v) != PADDING
  {
  }

  lemma CharOfDigit(c: bv8)
    requires InAlphabet(c)
    ensures Digit(c) < 64 && Char(Digit(c)) == c && c != PADDING
  {
  }

  // ----- Reference: groups of 24 bits.

  /** The 24 bits of three bytes. */
  function Group(a: bv8, b: bv8, c: bv8): bv32 {
    ((a as bv32) << 16) | ((b as bv32) << 8) | (c as bv32)
  }

  /** The digit of a group: 0 is the highest. */
  function GroupDigit(g: bv32, k: nat): (v: bv8)
    requires k < 4
    ensures v < 64
  {
    (if k == 0 then (g >> 18) & 63
     else if k == 1 then (g >> 12) & 63
     else if k == 2 then (g >> 6) & 63
     else g & 63) as bv8
  }

  /** The group of four digits. */
  function FromDigits(p: bv8, q: bv8, r: bv8, s: bv8): bv32 {
    ((p as bv32) << 18) | ((q as bv32) << 12) | ((r as bv32) << 6) | (s as bv32)
  }

  function GroupByte(g: bv32, k: nat): bv8
    requires k < 3
  {
    (if k == 0 then (g >> 16) & 255 else if k == 1 then (g >> 8) & 255 else g & 255) as bv8
  }

  function EncodeGroup(x: Bytes): (s: Bytes)
    requires 1 <= |x| <= 3
    ensures |s| == 4
  {
    var g := Group(x[0], if |x| > 1 then x[1] else 0, if |x| > 2 then x[2] else 0);
    [Char(GroupDigit(g, 0)), Char(GroupDigit(g, 1)),
     if |x| > 1 then Char(GroupDigit(g, 2)) else PADDING, if |x| > 2 then Char(GroupDigit(g, 3)) else PADDING]
  }

  function Encode(x: Bytes): Bytes
    decreases |x|
  {
    if x == [] then [] else if |x| <= 3 then EncodeGroup(x) else EncodeGroup(x[..3]) + Encode(x[3..])
  }

  datatype Error = SizeNotDivisibleByFour | TooMuchPadding | InvalidCharacter

  datatype Result = Ok(bytes: Bytes) | Err(error: Error)

  predicate AllInAlphabet(s: Bytes) {
    forall i | 0 <= i < |s| :: InAlphabet(s[i])
  }

  /** The bytes of the digits of a group: 4 give 3, 3 give 2, 2 give 1. */
  function DecodeDigits(s: Bytes): (x: Bytes)
    requires 2 <= |s| <= 4
    ensures |x| == |s| - 1
  {
    var g := FromDigits(Digit(s[0]), Digit(s[1]),
                        if |s| > 2 then Digit(s[2]) else 0, if |s| > 3 then Digit(s[3]) else 0);
    [GroupByte(g, 0)] + (if |s| > 2 then [GroupByte(g, 1)] else []) + (if |s| > 3 then [GroupByte(g, 2)] else [])
  }

  /** Whole groups of four digits. */
  function DecodeWhole(s: Bytes): (x: Bytes)
    requires |s| % 4 == 0
    decreases |s|
  {
    if s == [] then [] else DecodeDigits(s[..4]) + DecodeWhole(s[4..])
  }

  /** How many of the last four characters are padding. */
  function PaddingCount(s: Bytes): nat
    requires |s| >= 4
  {
    var n := |s|;
    (if s[n - 1] == PADDING then 1 else 0) + (if s[n - 2] == PADDING then 1 else 0)
    + (if s[n - 3] == PADDING then 1 else 0) + (if s[n - 4] == PADDING then 1 else 0)
  }

  /** The text without its padding, and its whole groups. */
  function Decode(s: Bytes): Result {
    if s == [] then Ok([])
    else if |s| % 4 != 0 then Err(SizeNotDivisibleByFour)
    else
      var padding := PaddingCount(s);
      if padding > 2 then Err(TooMuchPadding)
      else if !AllInAlphabet(s[..|s| - padding]) then Err(InvalidCharacter)
      else if padding == 0 then Ok(DecodeWhole(s))
      else Ok(DecodeWhole(s[..|s| - 4]) + DecodeDigits(s[|s| - 4..|s| - padding]))
  }

  // ----- Round trips.

  /** The bits of the last digit that belong to no byte are zero. */
  predicate UnusedBitsZero(s: Bytes) {
    |s| >= 4 ==> (
      && (PaddingCount(s) == 1 ==> Digit(s[|s| - 2]) & 3 == 0)
      && (PaddingCount(s) == 2 ==> Digit(s[|s| - 3]) & 15 == 0))
  }

  lemma GroupThree(a: bv8, b: bv8, c: bv8)
    ensures var g := Group(a, b, c);
            FromDigits(GroupDigit(g, 0), GroupDigit(g, 1), GroupDigit(g, 2), GroupDigit(g, 3)) == g
    ensures GroupByte(Group(a, b, c), 0) == a && GroupByte(Group(a, b, c), 1) == b && GroupByte(Group(a, b, c), 2) == c
    ensures GroupDigit(Group(a, b, 0), 3) == 0 && GroupDigit(Group(a, 0, 0), 2) == 0
  {
  }

  lemma DigitsThree(p: bv8, q: bv8, r: bv8, t: bv8)
    requires p < 64 && q < 64 && r < 64 && t < 64
    ensures var g := FromDigits(p, q, r, t);
            && Group(GroupByte(g, 0), GroupByte(g, 1), GroupByte(g, 2)) == g
            && GroupDigit(g, 0) == p && GroupDigit(g, 1) == q && GroupDigit(g, 2) == r && GroupDigit(g, 3) == t
  {
  }

  /** Dropping the last byte keeps the last digit exactly when its unused bits are zero. */
  lemma DigitsShort(p: bv8, q: bv8, r: bv8)
    requires p < 64 && q < 64 && r < 64
    ensures var g := FromDigits(p, q, r, 0);
            var h := Group(GroupByte(g, 0), GroupByte(g, 1), 0);
            GroupDigit(h, 0) == p && GroupDigit(h, 1) == q && (GroupDigit(h, 2) == r <==> r & 3 == 0)
    ensures var g := FromDigits(p, q, 0, 0);
            var h := Group(GroupByte(g, 0), 0, 0);
            GroupDigit(h, 0) == p && (GroupDigit(h, 1) == q <==> q & 15 == 0)
  {
  }

  lemma CharInjective(v: bv8, w: bv8)
    requires v < 64 && w < 64 && Char(v) == Char(w)
    ensures v == w
  {
    DigitOfChar(v);
    DigitOfChar(w);
  }

  lemma GroupRoundTrip(x: Bytes)
    requires 1 <= |x| <= 3
    ensures AllInAlphabet(EncodeGroup(x)[..|x| + 1]) && DecodeDigits(EncodeGroup(x)[..|x| + 1]) == x
    ensures forall i | |x| < i < 4 :: EncodeGroup(x)[i] == PADDING
    ensures PaddingCount(EncodeGroup(x)) == 3 - |x|
  {
    hide Group, GroupDigit, GroupByte, FromDigits, Char, Digit, InAlphabet;
    var b, c := if |x| > 1 then x[1] else 0, if |x| > 2 then x[2] else 0;
    var g := Group(x[0], b, c);
    GroupThree(x[0], b, c);
    DigitOfChar(GroupDigit(g, 0));
    DigitOfChar(GroupDigit(g, 1));
    DigitOfChar(GroupDigit(g, 2));
    DigitOfChar(GroupDigit(g, 3));
  }

  predicate LastDigitClean(s: Bytes)
    requires 2 <= |s| <= 4
  {
    if |s| == 2 then Digit(s[1]) & 15 == 0 else if |s| == 3 then Digit(s[2]) & 3 == 0 else true
  }

  lemma DigitsRoundTrip(s: Bytes)
    requires 2 <= |s| <= 4 && AllInAlphabet(s)
    ensures EncodeGroup(DecodeDigits(s))[..|s|] == s <==> LastDigitClean(s)
    ensures forall i | |s| <= i < 4 :: EncodeGroup(DecodeDigits(s))[i] == PADDING
  {
    hide Group, GroupDigit, GroupByte, FromDigits, Char, Digit, InAlphabet;
    var p, q := Digit(s[0]), Digit(s[1]);
    var r, t := if |s| > 2 then Digit(s[2]) else 0, if |s| > 3 then Digit(s[3]) else 0;
    CharOfDigit(s[0]);
    CharOfDigit(s[1]);
    if |s| > 2 {
      CharOfDigit(s[2]);
    }
    if |s| > 3 {
      CharOfDigit(s[3]);
    }
    DigitsThree(p, q, r, t);
    DigitsShort(p, q, r);
    ZeroDigit();
    var g := FromDigits(p, q, r, t);
    if |s| == 3 {
      var h := Group(GroupByte(g, 0), GroupByte(g, 1), 0);
      if Char(GroupDigit(h, 2)) == Char(r) {
        CharInjective(GroupDigit(h, 2), r);
      }
    } else if |s| == 2 {
      var h := Group(GroupByte(g, 0), 0, 0);
      if Char(GroupDigit(h, 1)) == Char(q) {
        CharInjective(GroupDigit(h, 1), q);
      }
    }
  }

  lemma ZeroDigit()
    ensures (0 as bv8) < 64
  {
  }

  lemma EncodeCons(x: Bytes)
    requires |x| >= 3
    ensures Encode(x) == EncodeGroup(x[..3]) + Encode(x[3..])
  {
    if |x| == 3 {
      assert x[..3] == x && x[3..] == [];
    }
  }

  lemma ConsWhole(g: Bytes, rest: Bytes)
    requires |g| == 4 && |rest| % 4 == 0
    ensures DecodeWhole(g + rest) == DecodeDigits(g) + DecodeWhole(rest)
  {
    hide DecodeDigits;
    assert (g + rest)[..4] == g && (g + rest)[4..] == rest;
  }

  /** A text that goes on after its first group. */
  lemma DecodeCons(g: Bytes, rest: Bytes)
    requires |g| == 4 && rest != [] && |rest| % 4 == 0 && PaddingCount(rest) <= 2
    ensures Decode(g + rest) ==
      if !AllInAlphabet(g) || Decode(rest).Err? then Err(InvalidCharacter)
      else Ok(DecodeDigits(g) + Decode(rest).bytes)
  {
    hide AllInAlphabet, DecodeDigits, DecodeWhole, PaddingCount;
    var s, padding := g + rest, PaddingCount(rest);
    var n := |rest| - padding;
    PaddingConcat(g, rest);
    assert s[..|s| - padding] == g + rest[..n];
    AllInAlphabetConcat(g, rest[..n]);
    if padding == 0 {
      ConsWhole(g, rest);
      assert rest[..n] == rest;
    } else {
      assert s[..|s| - 4] == g + rest[..|rest| - 4];
      ConsWhole(g, rest[..|rest| - 4]);
      assert s[|s| - 4..|s| - padding] == rest[|rest| - 4..n];
      var last := DecodeDigits(rest[|rest| - 4..n]);
      assert DecodeDigits(g) + DecodeWhole(rest[..|rest| - 4]) + last
          == DecodeDigits(g) + (DecodeWhole(rest[..|rest| - 4]) + last);
    }
  }

  lemma AllInAlphabetConcat(a: Bytes, b: Bytes)
    ensures AllInAlphabet(a + b) <==> AllInAlphabet(a) && AllInAlphabet(b)
  {
    hide InAlphabet;
    if AllInAlphabet(a + b) {
      forall i | 0 <= i < |a| ensures InAlphabet(a[i]) {
        assert (a + b)[i] == a[i];
      }
      forall i | 0 <= i < |b| ensures InAlphabet(b[i]) {
        assert (a + b)[|a| + i] == b[i];
      }
    }
  }

  lemma DecodeLast(s: Bytes)
    requires |s| == 4 && PaddingCount(s) <= 2
    ensures Decode(s) == if AllInAlphabet(s[..4 - PaddingCount(s)]) then Ok(DecodeDigits(s[..4 - PaddingCount(s)]))
                         else Err(InvalidCharacter)
  {
    hide InAlphabet, DecodeDigits;
    assert s[..0] == [] && s[..4] == s && s[4..] == [] && DecodeWhole([]) == [];
    assert s[0..4 - PaddingCount(s)] == s[..4 - PaddingCount(s)];
  }

  /** Every byte string comes back from its encoding, which is well formed. */
  lemma {:induction false} RoundTrip(x: Bytes)
    ensures |Encode(x)| % 4 == 0 && (x != [] ==> |Encode(x)| >= 4 && PaddingCount(Encode(x)) <= 2)
    ensures Decode(Encode(x)) == Ok(x)
    decreases |x|
  {
    hide InAlphabet, DecodeDigits, EncodeGroup, Decode, Encode, PaddingCount;
    if x == [] {
      DecodeEmpty();
    } else if |x| <= 3 {
      EncodeShort(x);
      GroupRoundTrip(x);
      DecodeLast(Encode(x));
    } else {
      EncodeCons(x);
      RoundTrip(x[3..]);
      GroupRoundTrip(x[..3]);
      var g, rest := EncodeGroup(x[..3]), Encode(x[3..]);
      assert g[..4] == g && x == x[..3] + x[3..];
      DecodeCons(g, rest);
      PaddingConcat(g, rest);
    }
  }

  lemma EncodeShort(x: Bytes)
    requires 1 <= |x| <= 3
    ensures Encode(x) == EncodeGroup(x)
  {
  }

  lemma PaddingConcat(g: Bytes, rest: Bytes)
    requires |rest| >= 4
    ensures PaddingCount(g + rest) == PaddingCount(rest)
  {
  }

  lemma DecodeEmpty()
    ensures Decode([]) == Ok([]) && Encode([]) == []
  {
  }

  /** An accepted text is the encoding of what it decodes to exactly when its unused bits are zero. */
  lemma {:induction false} Canonical(s: Bytes)
    requires Decode(s).Ok?
    ensures Encode(Decode(s).bytes) == s <==> UnusedBitsZero(s)
    decreases |s|
  {
    hide InAlphabet, DecodeDigits, EncodeGroup, Decode, Digit;
    DecodeEmpty();
    DecodeSize(s);
    if |s| == 4 {
      CanonicalLast(s);
    } else if s != [] {
      var g, rest := s[..4], s[4..];
      assert s == g + rest && PaddingCount(s) == PaddingCount(rest);
      DecodeCons(g, rest);
      Canonical(rest);
      DigitsRoundTrip(g);
      assert g[..4] == g;
      var x := DecodeDigits(g) + Decode(rest).bytes;
      EncodeCons(x);
      assert x[..3] == DecodeDigits(g) && x[3..] == Decode(rest).bytes;
      assert EncodeGroup(DecodeDigits(g)) == g by {
        assert EncodeGroup(DecodeDigits(g))[..4] == EncodeGroup(DecodeDigits(g));
      }
      SameRest(g, Encode(Decode(rest).bytes), rest);
      assert UnusedBitsZero(s) == UnusedBitsZero(rest);
    }
  }

  lemma CanonicalLast(s: Bytes)
    requires Decode(s).Ok? && |s| == 4
    ensures Encode(Decode(s).bytes) == s <==> UnusedBitsZero(s)
  {
    hide InAlphabet, DecodeDigits, EncodeGroup, Decode, Digit;
    DecodeSize(s);
    var n := 4 - PaddingCount(s);
    DecodeLast(s);
    DigitsRoundTrip(s[..n]);
    var t := EncodeGroup(DecodeDigits(s[..n]));
    assert Encode(Decode(s).bytes) == t;
    PaddingPlaces(s);
    assert t == s <==> t[..n] == s[..n] by {
      assert t[..n] == s[..n] ==> t[..n] + t[n..] == s[..n] + s[n..];
    }
  }

  lemma SameRest(g: Bytes, a: Bytes, b: Bytes)
    ensures g + a == g + b <==> a == b
  {
    assert (g + a)[|g|..] == a && (g + b)[|g|..] == b;
  }

  /** "Zh==" is accepted, decodes like "Zg==", and is not the encoding of what it decodes to. */
  lemma UnusedBitsAccepted()
    ensures Decode([90, 104, 61, 61]) == Ok([102]) == Decode([90, 103, 61, 61])
    ensures !UnusedBitsZero([90, 104, 61, 61]) && Encode([102]) != [90, 104, 61, 61]
  {
    var s: Bytes := [90, 104, 61, 61];
    assert Digit(90) == 25 && Digit(104) == 33 && Digit(103) == 32;
    assert s[..2] == [90, 104] && s[2..] == [61, 61];
    assert Decode(s) == Ok([102]);
    Canonical(s);
  }

  lemma DecodeSize(s: Bytes)
    requires Decode(s).Ok?
    ensures |s| % 4 == 0 && (s != [] ==> PaddingCount(s) <= 2)
    ensures s != [] ==> AllInAlphabet(s[..|s| - PaddingCount(s)])
  {
  }

  /** With everything before them in the alphabet, the padding characters are the last ones. */
  lemma PaddingPlaces(s: Bytes)
    requires |s| == 4 && PaddingCount(s) <= 2 && AllInAlphabet(s[..4 - PaddingCount(s)])
    ensures forall i | 4 - PaddingCount(s) <= i < 4 :: s[i] == PADDING
  {
    var n := 4 - PaddingCount(s);
    forall i | 0 <= i < n ensures s[i] != PADDING {
      assert InAlphabet(s[..n][i]);
      CharOfDigit(s[i]);
    }
  }

  // ----- encode_into.

  /** encode_table_0: the digit of the six highest bits. */
  function EncodeTable0(t: bv8): bv8 {
    Char(t >> 2)
  }

  /** encode_table_1: the digit of the six lowest bits. */
  function EncodeTable1(t: bv8): bv8 {
    Char(t & 63)
  }

  lemma Table0(a: bv8, b: bv8, c: bv8)
    ensures EncodeTable0(a) == Char(GroupDigit(Group(a, b, c), 0))
  {
    hide Char;
    assert a >> 2 == GroupDigit(Group(a, b, c), 0);
  }

  lemma Table1(a: bv8, b: bv8, c: bv8)
    ensures EncodeTable1(((a & 3) << 4) | ((b >> 4) & 15)) == Char(GroupDigit(Group(a, b, c), 1))
  {
    hide Char;
    assert (((a & 3) << 4) | ((b >> 4) & 15)) & 63 == GroupDigit(Group(a, b, c), 1);
  }

  lemma Table1Last(a: bv8)
    ensures EncodeTable1((a & 3) << 4) == Char(GroupDigit(Group(a, 0, 0), 1))
  {
    hide Char;
    assert ((a & 3) << 4) & 63 == GroupDigit(Group(a, 0, 0), 1);
  }

  lemma Table2(a: bv8, b: bv8, c: bv8)
    ensures EncodeTable1(((b & 15) << 2) | ((c >> 6) & 3)) == Char(GroupDigit(Group(a, b, c), 2))
  {
    hide Char;
    assert (((b & 15) << 2) | ((c >> 6) & 3)) & 63 == GroupDigit(Group(a, b, c), 2);
  }

  lemma Table2Last(a: bv8, b: bv8)
    ensures EncodeTable1((b & 15) << 2) == Char(GroupDigit(Group(a, b, 0), 2))
  {
    hide Char;
    assert ((b & 15) << 2) & 63 == GroupDigit(Group(a, b, 0), 2);
  }

  lemma Table3(a: bv8, b: bv8, c: bv8)
    ensures EncodeTable1(c) == Char(GroupDigit(Group(a, b, c), 3))
  {
    hide Char;
    assert c & 63 == GroupDigit(Group(a, b, c), 3);
  }

  /** The characters that encode_into writes for three, two and one bytes. */
  lemma TablesThree(a: bv8, b: bv8, c: bv8)
    ensures EncodeGroup([a, b, c]) ==
      [EncodeTable0(a), EncodeTable1(((a & 3) << 4) | ((b >> 4) & 15)),
       EncodeTable1(((b & 15) << 2) | ((c >> 6) & 3)), EncodeTable1(c)]
  {
    hide Char, Group, GroupDigit, EncodeTable0, EncodeTable1;
    Table0(a, b, c);
    Table1(a, b, c);
    Table2(a, b, c);
    Table3(a, b, c);
  }

  lemma TablesTwo(a: bv8, b: bv8)
    ensures EncodeGroup([a, b]) ==
      [EncodeTable0(a), EncodeTable1(((a & 3) << 4) | ((b >> 4) & 15)), EncodeTable1((b & 15) << 2), PADDING]
  {
    hide Char, Group, GroupDigit, EncodeTable0, EncodeTable1;
    Table0(a, b, 0);
    Table1(a, b, 0);
    Table2Last(a, b);
  }

  lemma TablesOne(a: bv8)
    ensures EncodeGroup([a]) == [EncodeTable0(a), EncodeTable1((a & 3) << 4), PADDING, PADDING]
  {
    hide Char, Group, GroupDigit, EncodeTable0, EncodeTable1;
    Table0(a, 0, 0);
    Table1Last(a);
  }

  /** The body of the loop of encode_into. */
  method EncodeThree(out: array<bv8>, curr: nat, t1: bv8, t2: bv8, t3: bv8)
    requires curr + 4 <= out.Length
    modifies out
    ensures out[..curr + 4] == old(out[..curr]) + EncodeGroup([t1, t2, t3])
    ensures out[curr + 4..] == old(out[curr + 4..])
  {
    hide EncodeTable0, EncodeTable1, EncodeGroup;
    TablesThree(t1, t2, t3);
    out[curr] := EncodeTable0(t1);
    out[curr + 1] := EncodeTable1(((t1 & 3) << 4) | ((t2 >> 4) & 15));
    out[curr + 2] := EncodeTable1(((t2 & 15) << 2) | ((t3 >> 6) & 3));
    out[curr + 3] := EncodeTable1(t3);
    assert out[..curr + 4] == old(out[..curr]) + [out[curr], out[curr + 1], out[curr + 2], out[curr + 3]];
  }

  /** The last one or two bytes; the padding is already in place. */
  method EncodeLast(out: array<bv8>, curr: nat, rest: Bytes)
    requires curr + 4 == out.Length && 1 <= |rest| <= 2
    requires forall j | curr <= j < out.Length :: out[j] == PADDING
    modifies out
    ensures out[..] == old(out[..curr]) + EncodeGroup(rest)
  {
    hide EncodeTable0, EncodeTable1, EncodeGroup;
    var t1 := rest[0];
    out[curr] := EncodeTable0(t1);
    if |rest| == 1 {
      assert rest == [t1];
      TablesOne(t1);
      out[curr + 1] := EncodeTable1((t1 & 3) << 4);
    } else {
      var t2 := rest[1];
      assert rest == [t1, t2];
      TablesTwo(t1, t2);
      out[curr + 1] := EncodeTable1(((t1 & 3) << 4) | ((t2 >> 4) & 15));
      out[curr + 2] := EncodeTable1((t2 & 15) << 2);
    }
    assert out[..] == old(out[..curr]) + [out[curr], out[curr + 1], out[curr + 2], out[curr + 3]];
  }

  /** encode_into: the output is allocated full of padding and written through a cursor. */
  method EncodeInto(data: Bytes) returns (encoded: array<bv8>)
    ensures fresh(encoded) && encoded[..] == Encode(data)
  {
    hide Encode, EncodeGroup;
    EncodeSize(data);
    DecodeEmpty();
    var groups, rest := |data| / 3, |data| % 3;
    var encodedSize := 4 * (groups + if rest > 0 then 1 else 0);
    encoded := new bv8[encodedSize](_ => PADDING);
    var bytes, curr := 0, 0;
    assert data[0..] == data && encoded[..0] == [] && [] + Encode(data) == Encode(data);
    for i := 0 to groups
      invariant bytes == 3 * i && curr == 4 * i && encoded.Length == encodedSize
      invariant encoded[..curr] + Encode(data[bytes..]) == Encode(data)
      invariant forall j | curr <= j < encodedSize :: encoded[j] == PADDING
    {
      EncodeNext(encoded[..curr], data, bytes);
      ghost var tail := encoded[curr + 4..];
      assert forall j | curr + 4 <= j < encodedSize :: encoded[j] == PADDING && tail[j - curr - 4] == encoded[j];
      EncodeThree(encoded, curr, data[bytes], data[bytes + 1], data[bytes + 2]);
      bytes, curr := bytes + 3, curr + 4;
      forall j | curr <= j < encodedSize ensures encoded[j] == PADDING {
        assert encoded[curr..][j - curr] == tail[j - curr];
      }
    }
    if rest > 0 {
      EncodeShort(data[bytes..]);
      EncodeLast(encoded, curr, data[bytes..]);
    } else {
      assert data[bytes..] == [] && encoded[..] == encoded[..curr] && encoded[..curr] + [] == encoded[..curr];
    }
  }

  lemma EncodeNext(done: Bytes, data: Bytes, bytes: nat)
    requires bytes + 3 <= |data|
    ensures done + Encode(data[bytes..])
         == done + EncodeGroup([data[bytes], data[bytes + 1], data[bytes + 2]]) + Encode(data[bytes + 3..])
  {
    hide Encode, EncodeGroup;
    var x := data[bytes..];
    EncodeCons(x);
    assert x[..3] == [data[bytes], data[bytes + 1], data[bytes + 2]] && x[3..] == data[bytes + 3..];
    assert done + (EncodeGroup(x[..3]) + Encode(x[3..])) == done + EncodeGroup(x[..3]) + Encode(x[3..]);
  }

  lemma {:induction false} EncodeSize(x: Bytes)
    ensures |Encode(x)| == 4 * (|x| / 3 + if |x| % 3 > 0 then 1 else 0)
    decreases |x|
  {
    if |x| > 3 {
      EncodeSize(x[3..]);
    }
  }

  // ----- decode_into.

  const BAD_CHAR: bv32 := 0x01FF_FFFF

  /** Where the bits of each digit go in the word whose lowest three bytes are the output. */
  function Place(k: nat, d: bv8): bv32
    requires k < 4
  {
    var v := d as bv32;
    if k == 0 then v << 2
    else if k == 1 then (v >> 4) | ((v & 15) << 12)
    else if k == 2 then ((v >> 2) << 8) | ((v & 3) << 22)
    else v << 16
  }

  /** decode_table_0 to decode_table_3, little-endian. */
  function DecodeTable(k: nat, c: bv8): bv32
    requires k < 4
  {
    if InAlphabet(c) then Place(k, Digit(c)) else BAD_CHAR
  }

  /** bit_cast on a little-endian machine. */
  function TempByte(temp: bv32, k: nat): bv8
    requires k < 3
  {
    (if k == 0 then temp & 255 else if k == 1 then (temp >> 8) & 255 else (temp >> 16) & 255) as bv8
  }

  lemma TableRange(k: nat, c: bv8)
    requires k < 4
    ensures if InAlphabet(c) then DecodeTable(k, c) < 0x0100_0000 else DecodeTable(k, c) == BAD_CHAR
  {
    if InAlphabet(c) {
      CharOfDigit(c);
      DigitRange(Digit(c));
    }
  }

  lemma DigitRange(d: bv8)
    requires d < 64
    ensures Place(0, d) < 0x0100_0000 && Place(1, d) < 0x0100_0000
    ensures Place(2, d) < 0x0100_0000 && Place(3, d) < 0x0100_0000
    ensures Place(2, 0) == 0 && Place(3, 0) == 0
  {
  }

  /** One test finds a bad character in any of the places. */
  lemma BadIsSticky(d1: bv32, d2: bv32, d3: bv32, d4: bv32)
    requires (d1 < 0x0100_0000 || d1 == BAD_CHAR) && (d2 < 0x0100_0000 || d2 == BAD_CHAR)
    requires (d3 < 0x0100_0000 || d3 == BAD_CHAR) && (d4 < 0x0100_0000 || d4 == BAD_CHAR)
    ensures d1 | d2 | d3 | d4 >= BAD_CHAR <==>
            d1 == BAD_CHAR || d2 == BAD_CHAR || d3 == BAD_CHAR || d4 == BAD_CHAR
    ensures d1 | d2 | d3 >= BAD_CHAR <==> d1 == BAD_CHAR || d2 == BAD_CHAR || d3 == BAD_CHAR
    ensures d1 | d2 >= BAD_CHAR <==> d1 == BAD_CHAR || d2 == BAD_CHAR
  {
  }

  lemma TempWord(p: bv32, q: bv32, r: bv32, t: bv32)
    requires p < 64 && q < 64 && r < 64 && t < 64
    ensures var temp := (p << 2) | ((q >> 4) | ((q & 15) << 12)) | (((r >> 2) << 8) | ((r & 3) << 22)) | (t << 16);
            var g := (p << 18) | (q << 12) | (r << 6) | t;
            && temp & 255 == (g >> 16) & 255
            && (temp >> 8) & 255 == (g >> 8) & 255
            && (temp >> 16) & 255 == g & 255
  {
  }

  /** The digits land in the bytes of their group. */
  lemma TempBytes(p: bv8, q: bv8, r: bv8, t: bv8)
    requires p < 64 && q < 64 && r < 64 && t < 64
    ensures var temp := Place(0, p) | Place(1, q) | Place(2, r) | Place(3, t);
            var g := FromDigits(p, q, r, t);
            && TempByte(temp, 0) == GroupByte(g, 0)
            && TempByte(temp, 1) == GroupByte(g, 1)
            && TempByte(temp, 2) == GroupByte(g, 2)
  {
    TempWord(p as bv32, q as bv32, r as bv32, t as bv32);
  }

  /** The word that decode_into puts together from four, three or two characters. */
  function Temp(s: Bytes): bv32
    requires 2 <= |s| <= 4
  {
    DecodeTable(0, s[0]) | DecodeTable(1, s[1])
    | (if |s| > 2 then DecodeTable(2, s[2]) else 0) | (if |s| > 3 then DecodeTable(3, s[3]) else 0)
  }

  /** One comparison finds a bad character. */
  lemma TempBad(s: Bytes)
    requires 2 <= |s| <= 4
    ensures Temp(s) >= BAD_CHAR <==> !AllInAlphabet(s)
  {
    hide DecodeTable, InAlphabet;
    TableRange(0, s[0]);
    TableRange(1, s[1]);
    if |s| > 2 {
      TableRange(2, s[2]);
    }
    if |s| > 3 {
      TableRange(3, s[3]);
    }
    var d3, d4 := if |s| > 2 then DecodeTable(2, s[2]) else 0, if |s| > 3 then DecodeTable(3, s[3]) else 0;
    BadIsSticky(DecodeTable(0, s[0]), DecodeTable(1, s[1]), d3, d4);
  }

  /** The lowest bytes of the word are the decoded bytes. */
  lemma TempGood(s: Bytes)
    requires 2 <= |s| <= 4 && AllInAlphabet(s)
    ensures DecodeDigits(s) == [TempByte(Temp(s), 0), TempByte(Temp(s), 1), TempByte(Temp(s), 2)][..|s| - 1]
  {
    hide TempByte, GroupByte, FromDigits, Digit, InAlphabet, Place;
    var p, q := Digit(s[0]), Digit(s[1]);
    var r, t := if |s| > 2 then Digit(s[2]) else 0, if |s| > 3 then Digit(s[3]) else 0;
    forall i | 0 <= i < |s| ensures Digit(s[i]) < 64 {
      CharOfDigit(s[i]);
    }
    ZeroDigit();
    DigitRange(0);
    assert Temp(s) == Place(0, p) | Place(1, q) | Place(2, r) | Place(3, t);
    TempBytes(p, q, r, t);
    var g := FromDigits(p, q, r, t);
    var all := [TempByte(Temp(s), 0), TempByte(Temp(s), 1), TempByte(Temp(s), 2)];
    assert all == [GroupByte(g, 0), GroupByte(g, 1), GroupByte(g, 2)];
    if |s| == 2 {
      assert all[..1] == [GroupByte(g, 0)];
    } else if |s| == 3 {
      assert all[..2] == [GroupByte(g, 0), GroupByte(g, 1)];
    } else {
      assert all[..3] == all;
    }
  }

  lemma {:induction false} DecodeWholeSnoc(s: Bytes, g: Bytes)
    requires |s| % 4 == 0 && |g| == 4
    ensures DecodeWhole(s + g) == DecodeWhole(s) + DecodeDigits(g)
    decreases |s|
  {
    hide DecodeDigits;
    if s == [] {
      assert s + g == g && g[..4] == g && g[4..] == [] && DecodeWhole([]) == [];
    } else {
      assert (s + g)[..4] == s[..4] && (s + g)[4..] == s[4..] + g;
      DecodeWholeSnoc(s[4..], g);
    }
  }

  /** One group: looked up, tested and written. */
  method DecodeGroup(out: array<bv8>, curr: nat, g: Bytes) returns (ok: bool)
    requires 2 <= |g| <= 4 && curr + |g| - 1 <= out.Length
    modifies out
    ensures ok == AllInAlphabet(g)
    ensures ok ==> out[..curr + |g| - 1] == old(out[..curr]) + DecodeDigits(g)
  {
    hide Temp, TempByte, DecodeDigits, InAlphabet;
    var temp := Temp(g);
    TempBad(g);
    if temp >= BAD_CHAR {
      return false;
    }
    TempGood(g);
    out[curr] := TempByte(temp, 0);
    if |g| > 2 {
      out[curr + 1] := TempByte(temp, 1);
    }
    if |g| > 3 {
      out[curr + 2] := TempByte(temp, 2);
    }
    assert out[curr..curr + |g| - 1] == [TempByte(temp, 0), TempByte(temp, 1), TempByte(temp, 2)][..|g| - 1];
    assert out[..curr + |g| - 1] == old(out[..curr]) + out[curr..curr + |g| - 1];
    ok := true;
  }

  /** std::count over the last four characters. */
  method CountPadding(s: Bytes) returns (n: nat)
    requires |s| >= 4
    ensures n == PaddingCount(s)
  {
    n := 0;
    for i := 1 to 5
      invariant n == (if i > 1 && s[|s| - 1] == PADDING then 1 else 0)
                     + (if i > 2 && s[|s| - 2] == PADDING then 1 else 0)
                     + (if i > 3 && s[|s| - 3] == PADDING then 1 else 0)
                     + (if i > 4 && s[|s| - 4] == PADDING then 1 else 0)
    {
      if s[|s| - i] == PADDING {
        n := n + 1;
      }
    }
  }

  /** decode_into. */
  method DecodeInto(text: Bytes) returns (r: Result)
    ensures r == Decode(text)
  {
    hide DecodeDigits, AllInAlphabet, DecodeWhole, PaddingCount;
    if text == [] {
      return Ok([]);
    }
    if |text| % 4 != 0 {
      return Err(SizeNotDivisibleByFour);
    }
    var numPadding := CountPadding(text);
    if numPadding > 2 {
      return Err(TooMuchPadding);
    }
    var groups := |text| / 4 - if numPadding != 0 then 1 else 0;
    var decoded := new bv8[|text| / 4 * 3 - numPadding](_ => 46);
    var bytes, curr := 0, 0;
    DecodeWholeNone(text);
    for i := 0 to groups
      invariant bytes == 4 * i && curr == 3 * i
      invariant AllInAlphabet(text[..bytes]) && decoded[..curr] == DecodeWhole(text[..bytes])
    {
      var ok := DecodeGroup(decoded, curr, text[bytes..bytes + 4]);
      AlphabetUpTo(text, bytes, bytes + 4, numPadding);
      if !ok {
        return Err(InvalidCharacter);
      }
      DecodeWholeSnoc(text[..bytes], text[bytes..bytes + 4]);
      assert text[..bytes + 4] == text[..bytes] + text[bytes..bytes + 4];
      bytes, curr := bytes + 4, curr + 3;
    }
    if numPadding != 0 {
      var ok := DecodeGroup(decoded, curr, text[bytes..|text| - numPadding]);
      AlphabetUpTo(text, bytes, |text| - numPadding, numPadding);
      if !ok {
        return Err(InvalidCharacter);
      }
    } else {
      assert text[..bytes] == text;
    }
    assert decoded[..] == decoded[..decoded.Length];
    r := Ok(decoded[..]);
  }

  lemma DecodeWholeNone(s: Bytes)
    ensures s[..0] == [] && DecodeWhole([]) == [] && AllInAlphabet(s[..0])
  {
  }

  /** A bad character found in a group is a bad character of the text. */
  lemma AlphabetUpTo(s: Bytes, i: nat, j: nat, padding: nat)
    requires padding <= |s| && i <= j <= |s| - padding && AllInAlphabet(s[..i])
    ensures AllInAlphabet(s[..j]) <==> AllInAlphabet(s[i..j])
    ensures !AllInAlphabet(s[i..j]) ==> !AllInAlphabet(s[..|s| - padding])
  {
    hide InAlphabet;
    assert s[..j] == s[..i] + s[i..j];
    AllInAlphabetConcat(s[..i], s[i..j]);
    assert s[..|s| - padding] == s[..j] + s[j..|s| - padding];
    AllInAlphabetConcat(s[..j], s[j..|s| - padding]);
  }
}
