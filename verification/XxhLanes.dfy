/** The word arithmetic of XXH3: the portable 64 by 64 multiplication, and the AVX2 forms of the
    accumulate and scramble loops against the scalar ones. */
module XxhLanes {
  import opened Bits

  type U64 = x: nat | x < 0x1_0000_0000_0000_0000

  function Lo(x: U64): (r: nat)
    ensures r < 0x1_0000_0000
  {
    x % 0x1_0000_0000
  }

  function Hi(x: U64): (r: nat)
    ensures r < 0x1_0000_0000
  {
    x / 0x1_0000_0000
  }

  lemma LoHi(x: U64)
    ensures x == Hi(x) * 0x1_0000_0000 + Lo(x)
  {
  }

  // ----- XXH_mult64to128.

  lemma ProductBound(a: nat, b: nat)
    requires a < 0x1_0000_0000 && b < 0x1_0000_0000
    ensures 0 <= a * b <= 0xFFFF_FFFE_0000_0001
  {
    MulLe(a, b, 0xFFFF_FFFF);
    assert a * 0xFFFF_FFFF <= 0xFFFF_FFFF * 0xFFFF_FFFF;
  }

  lemma {:induction false} MulLe(a: nat, b: nat, c: nat)
    requires b <= c
    ensures 0 <= a * b <= a * c
  {
    if a > 0 {
      MulLe(a - 1, b, c);
      assert a * b == (a - 1) * b + b && a * c == (a - 1) * c + c;
    }
  }

  /** XXH_mult32to64. */
  function Mult32to64(a: nat, b: nat): (p: nat)
    requires a < 0x1_0000_0000 && b < 0x1_0000_0000
    ensures p == a * b <= 0xFFFF_FFFE_0000_0001
  {
    ProductBound(a, b);
    a * b
  }

  /** The product of two numbers written with two digits each. */
  lemma GradeSchool(a1: nat, a0: nat, b1: nat, b0: nat)
    ensures (a1 * 0x1_0000_0000 + a0) * (b1 * 0x1_0000_0000 + b0)
         == (a1 * b1) * 0x1_0000_0000_0000_0000 + (a1 * b0 + a0 * b1) * 0x1_0000_0000 + a0 * b0
  {
    assert (a1 * 0x1_0000_0000 + a0) * (b1 * 0x1_0000_0000 + b0)
        == (a1 * 0x1_0000_0000 + a0) * (b1 * 0x1_0000_0000) + (a1 * 0x1_0000_0000 + a0) * b0;
    assert (a1 * 0x1_0000_0000 + a0) * (b1 * 0x1_0000_0000)
        == ((a1 * 0x1_0000_0000 + a0) * b1) * 0x1_0000_0000;
    assert (a1 * 0x1_0000_0000 + a0) * b1 == (a1 * b1) * 0x1_0000_0000 + a0 * b1;
    assert (a1 * 0x1_0000_0000 + a0) * b0 == (a1 * b0) * 0x1_0000_0000 + a0 * b0;
  }

  /** The sums of the partial products fit 64 bits and put the 128-bit product together. */
  lemma CrossSums(loLo: nat, hiLo: nat, loHi: nat, hiHi: nat)
    requires loLo <= 0xFFFF_FFFE_0000_0001 && hiLo <= 0xFFFF_FFFE_0000_0001
    requires loHi <= 0xFFFF_FFFE_0000_0001 && hiHi <= 0xFFFF_FFFE_0000_0001
    ensures var cross := loLo / 0x1_0000_0000 + hiLo % 0x1_0000_0000 + loHi;
            var upper := hiLo / 0x1_0000_0000 + cross / 0x1_0000_0000 + hiHi;
            var lower := cross % 0x1_0000_0000 * 0x1_0000_0000 + loLo % 0x1_0000_0000;
            && cross < 0x1_0000_0000_0000_0000 && lower < 0x1_0000_0000_0000_0000
            && upper * 0x1_0000_0000_0000_0000 + lower
               == hiHi * 0x1_0000_0000_0000_0000 + (hiLo + loHi) * 0x1_0000_0000 + loLo
  {
  }

  lemma UpperFits(lhs: U64, rhs: U64, upper: nat, lower: U64)
    requires upper * 0x1_0000_0000_0000_0000 + lower == lhs * rhs
    ensures upper < 0x1_0000_0000_0000_0000
  {
    MulLe(lhs, rhs, 0xFFFF_FFFF_FFFF_FFFF);
    assert lhs * 0xFFFF_FFFF_FFFF_FFFF <= 0xFFFF_FFFF_FFFF_FFFF * 0xFFFF_FFFF_FFFF_FFFF;
  }

  /** XXH_mult64to128, portable form: the low and the high word are the exact product. */
  function Mult64to128(lhs: U64, rhs: U64): (r: (U64, U64))
    ensures r.1 * 0x1_0000_0000_0000_0000 + r.0 == lhs * rhs
  {
    var loLo := Mult32to64(Lo(lhs), Lo(rhs));
    var hiLo := Mult32to64(Hi(lhs), Lo(rhs));
    var loHi := Mult32to64(Lo(lhs), Hi(rhs));
    var hiHi := Mult32to64(Hi(lhs), Hi(rhs));
    CrossSums(loLo, hiLo, loHi, hiHi);
    GradeSchool(Hi(lhs), Lo(lhs), Hi(rhs), Lo(rhs));
    LoHi(lhs);
    LoHi(rhs);
    var cross: U64 := loLo / 0x1_0000_0000 + hiLo % 0x1_0000_0000 + loHi;
    var upper := hiLo / 0x1_0000_0000 + cross / 0x1_0000_0000 + hiHi;
    var lower: U64 := cross % 0x1_0000_0000 * 0x1_0000_0000 + loLo % 0x1_0000_0000;
    assert upper * 0x1_0000_0000_0000_0000 + lower == lhs * rhs;
    UpperFits(lhs, rhs, upper, lower);
    (lower, upper)
  }

  // ----- One stripe: eight lanes of 64 bits.

  type Lanes = s: seq<U64> | |s| == 8 witness [0, 0, 0, 0, 0, 0, 0, 0]

  function Add64(a: U64, b: U64): U64 {
    (a + b) % 0x1_0000_0000_0000_0000
  }

  function Xor64(a: U64, b: U64): U64 {
    Pow2Table();
    XorBound(a, b, 64);
    Xor(a, b)
  }

  /** The neighbour of a lane: lane ^ 1. */
  function Neighbour(k: nat): (j: nat)
    ensures Neighbour(k) != k
    ensures k < 8 ==> j < 8
  {
    if k % 2 == 0 then k + 1 else k - 1
  }

  function DataKey(input: Lanes, secret: Lanes, k: nat): U64
    requires k < 8
  {
    Xor64(input[k], secret[k])
  }

  /** What accumulating a stripe adds to one lane: the neighbour's data and the product of the halves. */
  function Accumulated(acc: Lanes, input: Lanes, secret: Lanes, k: nat): U64
    requires k < 8
  {
    var key := DataKey(input, secret, k);
    (acc[k] + input[Neighbour(k)] + Mult32to64(Lo(key), Hi(key))) % 0x1_0000_0000_0000_0000
  }

  /** XXH3_scalarRound on the whole array: the data goes to the neighbour, the product to the lane. */
  method ScalarRound(acc: array<U64>, input: Lanes, secret: Lanes, lane: nat)
    requires acc.Length == 8 && lane < 8
    modifies acc
    ensures acc[Neighbour(lane)] == Add64(old(acc[Neighbour(lane)]), input[lane])
    ensures var key := DataKey(input, secret, lane);
            acc[lane] == (old(acc[lane]) + Mult32to64(Lo(key), Hi(key))) % 0x1_0000_0000_0000_0000
    ensures forall k | 0 <= k < 8 && k != lane && k != Neighbour(lane) :: acc[k] == old(acc[k])
  {
    var dataVal := input[lane];
    var dataKey := Xor64(dataVal, secret[lane]);
    acc[Neighbour(lane)] := Add64(acc[Neighbour(lane)], dataVal);
    acc[lane] := (Mult32to64(Lo(dataKey), Hi(dataKey)) + acc[lane]) % 0x1_0000_0000_0000_0000;
  }

  /** A lane after the rounds below i: its product is in once its own round is done, its neighbour's
      data once the neighbour's is. */
  function Partial(acc: Lanes, input: Lanes, secret: Lanes, i: nat, k: nat): U64
    requires k < 8
  {
    var key := DataKey(input, secret, k);
    (acc[k] + (if Neighbour(k) < i then input[Neighbour(k)] else 0)
     + (if k < i then Mult32to64(Lo(key), Hi(key)) else 0)) % 0x1_0000_0000_0000_0000
  }

  /** Sums modulo 2 to the power 64 can be taken one term at a time. */
  lemma AddMod(a: nat, b: nat)
    ensures (a % 0x1_0000_0000_0000_0000 + b) % 0x1_0000_0000_0000_0000 == (a + b) % 0x1_0000_0000_0000_0000
  {
  }

  lemma PartialStep(acc: Lanes, input: Lanes, secret: Lanes, i: nat, k: nat)
    requires i < 8 && k < 8
    ensures Partial(acc, input, secret, i + 1, k) ==
      if k == i then
        (Partial(acc, input, secret, i, k)
         + Mult32to64(Lo(DataKey(input, secret, k)), Hi(DataKey(input, secret, k)))) % 0x1_0000_0000_0000_0000
      else if k == Neighbour(i) then Add64(Partial(acc, input, secret, i, k), input[i])
      else Partial(acc, input, secret, i, k)
  {
    hide Mult32to64, Lo, Hi, Neighbour, Partial;
    NeighboursMatch(i, k);
    if k == i {
      PartialOwn(acc, input, secret, k);
    } else if k == Neighbour(i) {
      PartialNeighbour(acc, input, secret, i, k);
    } else {
      PartialOther(acc, input, secret, i, k);
    }
  }

  lemma PartialOwn(acc: Lanes, input: Lanes, secret: Lanes, k: nat)
    requires k < 8
    ensures Partial(acc, input, secret, k + 1, k) ==
        (Partial(acc, input, secret, k, k)
         + Mult32to64(Lo(DataKey(input, secret, k)), Hi(DataKey(input, secret, k)))) % 0x1_0000_0000_0000_0000
  {
    hide DataKey, Mult32to64, Lo, Hi, Neighbour;
    var key := DataKey(input, secret, k);
    var data: nat := if Neighbour(k) < k then input[Neighbour(k)] else 0;
    AddMod(acc[k] + data, Mult32to64(Lo(key), Hi(key)));
  }

  lemma PartialNeighbour(acc: Lanes, input: Lanes, secret: Lanes, i: nat, k: nat)
    requires i < 8 && k < 8 && k != i && Neighbour(k) == i
    ensures Partial(acc, input, secret, i + 1, k) == Add64(Partial(acc, input, secret, i, k), input[i])
  {
    hide DataKey, Mult32to64, Lo, Hi, Neighbour;
    var key := DataKey(input, secret, k);
    AddMod(acc[k] + (if k < i then Mult32to64(Lo(key), Hi(key)) else 0), input[i]);
  }

  lemma PartialOther(acc: Lanes, input: Lanes, secret: Lanes, i: nat, k: nat)
    requires i < 8 && k < 8 && k != i && Neighbour(k) != i
    ensures Partial(acc, input, secret, i + 1, k) == Partial(acc, input, secret, i, k)
  {
    hide DataKey, Mult32to64, Lo, Hi, Neighbour;
  }

  /** Lanes are neighbours of each other. */
  lemma NeighboursMatch(i: nat, k: nat)
    ensures k == Neighbour(i) <==> Neighbour(k) == i
  {
  }

  /** XXH3_accumulate_512_scalar. */
  method AccumulateScalar(acc: array<U64>, input: Lanes, secret: Lanes)
    requires acc.Length == 8
    modifies acc
    ensures forall k | 0 <= k < 8 :: acc[k] == Accumulated(old(acc[..]), input, secret, k)
  {
    hide Partial, DataKey, Add64, Mult32to64, Lo, Hi;
    ghost var was: Lanes := acc[..];
    PartialEnds(was, input, secret);
    for i := 0 to 8
      invariant forall k | 0 <= k < 8 :: acc[k] == Partial(was, input, secret, i, k)
    {
      forall k | 0 <= k < 8
        ensures Partial(was, input, secret, i + 1, k) ==
          if k == i then
            (Partial(was, input, secret, i, k)
             + Mult32to64(Lo(DataKey(input, secret, k)), Hi(DataKey(input, secret, k)))) % 0x1_0000_0000_0000_0000
          else if k == Neighbour(i) then Add64(Partial(was, input, secret, i, k), input[i])
          else Partial(was, input, secret, i, k)
      {
        PartialStep(was, input, secret, i, k);
      }
      ScalarRound(acc, input, secret, i);
    }
  }

  lemma PartialEnds(acc: Lanes, input: Lanes, secret: Lanes)
    ensures forall k | 0 <= k < 8 ::
      Partial(acc, input, secret, 0, k) == acc[k]
      && Partial(acc, input, secret, 8, k) == Accumulated(acc, input, secret, k)
  {
    hide DataKey, Mult32to64, Lo, Hi;
  }

  // ----- Vectors of 256 bits, as four words.

  type Vector = v: seq<U64> | |v| == 4 witness [0, 0, 0, 0]

  /** The 32-bit words of a vector, lowest first. */
  function Word32(v: Vector, j: nat): (w: nat)
    requires j < 8
    ensures w < 0x1_0000_0000
  {
    if j % 2 == 0 then Lo(v[j / 2]) else Hi(v[j / 2])
  }

  function FromWords(lo: nat, hi: nat): U64
    requires lo < 0x1_0000_0000 && hi < 0x1_0000_0000
  {
    hi * 0x1_0000_0000 + lo
  }

  /** _mm256_xor_si256. */
  function XorVec(a: Vector, b: Vector): Vector {
    [Xor64(a[0], b[0]), Xor64(a[1], b[1]), Xor64(a[2], b[2]), Xor64(a[3], b[3])]
  }

  /** _mm256_add_epi64. */
  function AddVec(a: Vector, b: Vector): Vector {
    [Add64(a[0], b[0]), Add64(a[1], b[1]), Add64(a[2], b[2]), Add64(a[3], b[3])]
  }

  /** _mm256_srli_epi64 by 32 and by 47. */
  function Shr32Vec(a: Vector): Vector {
    [Hi(a[0]), Hi(a[1]), Hi(a[2]), Hi(a[3])]
  }

  function Shr47(x: U64): U64 {
    x / 0x8000_0000_0000
  }

  function Shr47Vec(a: Vector): Vector {
    [Shr47(a[0]), Shr47(a[1]), Shr47(a[2]), Shr47(a[3])]
  }

  /** _mm256_slli_epi64 by 32. */
  function Shl32(x: U64): U64 {
    x * 0x1_0000_0000 % 0x1_0000_0000_0000_0000
  }

  function Shl32Vec(a: Vector): Vector {
    [Shl32(a[0]), Shl32(a[1]), Shl32(a[2]), Shl32(a[3])]
  }

  /** _mm256_mul_epu32: the products of the lower halves. */
  function MulLowVec(a: Vector, b: Vector): Vector {
    [Mult32to64(Lo(a[0]), Lo(b[0])), Mult32to64(Lo(a[1]), Lo(b[1])),
     Mult32to64(Lo(a[2]), Lo(b[2])), Mult32to64(Lo(a[3]), Lo(b[3]))]
  }

  /** _mm256_shuffle_epi32 with _MM_SHUFFLE(1, 0, 3, 2): in each half, words 2, 3, 0, 1. */
  function ShuffleVec(v: Vector): Vector {
    [FromWords(Word32(v, 2), Word32(v, 3)), FromWords(Word32(v, 0), Word32(v, 1)),
     FromWords(Word32(v, 6), Word32(v, 7)), FromWords(Word32(v, 4), Word32(v, 5))]
  }

  lemma ShuffleSwaps(v: Vector)
    ensures ShuffleVec(v) == [v[1], v[0], v[3], v[2]]
  {
    LoHi(v[0]);
    LoHi(v[1]);
    LoHi(v[2]);
    LoHi(v[3]);
  }

  /** One vector of XXH3_accumulate_512_avx2. */
  function AccumulateVec(acc: Vector, data: Vector, key: Vector): Vector {
    var dataKey := XorVec(data, key);
    var product := MulLowVec(dataKey, Shr32Vec(dataKey));
    var sum := AddVec(acc, ShuffleVec(data));
    AddVec(product, sum)
  }

  function VectorAt(s: Lanes, i: nat): Vector
    requires i < 2
  {
    [s[4 * i], s[4 * i + 1], s[4 * i + 2], s[4 * i + 3]]
  }

  lemma AddThree(product: U64, acc: U64, data: U64)
    ensures Add64(product, Add64(acc, data)) == (acc + data + product) % 0x1_0000_0000_0000_0000
  {
    AddMod(acc + data, product);
  }

  lemma LoHiSmall(x: U64)
    ensures Lo(Hi(x)) == Hi(x)
  {
  }

  /** Each lane of the vector form is the lane of the scalar form. */
  lemma AccumulateVecLanes(acc: Lanes, input: Lanes, secret: Lanes, i: nat, j: nat)
    requires i < 2 && j < 4
    ensures AccumulateVec(VectorAt(acc, i), VectorAt(input, i), VectorAt(secret, i))[j]
         == Accumulated(acc, input, secret, 4 * i + j)
  {
    hide Xor64, Mult32to64, Lo, Hi, Add64, ShuffleVec;
    ShuffleSwaps(VectorAt(input, i));
    var k := 4 * i + j;
    var key := DataKey(input, secret, k);
    LoHiSmall(key);
    AddThree(Mult32to64(Lo(key), Hi(key)), acc[k], input[Neighbour(k)]);
  }

  /** XXH3_accumulate_512_avx2: the same lanes as the scalar loop, for every input. */
  method AccumulateAvx2(acc: array<U64>, input: Lanes, secret: Lanes)
    requires acc.Length == 8
    modifies acc
    ensures forall k | 0 <= k < 8 :: acc[k] == Accumulated(old(acc[..]), input, secret, k)
  {
    hide AccumulateVec, Accumulated;
    ghost var was: Lanes := acc[..];
    for i := 0 to 2
      invariant forall k | 0 <= k < 4 * i :: acc[k] == Accumulated(was, input, secret, k)
      invariant forall k | 4 * i <= k < 8 :: acc[k] == was[k]
    {
      var v := AccumulateVec(VectorAt(acc[..], i), VectorAt(input, i), VectorAt(secret, i));
      assert VectorAt(acc[..], i) == VectorAt(was, i);
      AccumulateVecLanes(was, input, secret, i, 0);
      AccumulateVecLanes(was, input, secret, i, 1);
      AccumulateVecLanes(was, input, secret, i, 2);
      AccumulateVecLanes(was, input, secret, i, 3);
      acc[4 * i], acc[4 * i + 1], acc[4 * i + 2], acc[4 * i + 3] := v[0], v[1], v[2], v[3];
    }
  }

  // ----- Scrambling.

  /** XXH_PRIME32_1. */
  const PRIME32_1: nat := 0x9E3779B1

  /** What scrambling makes of one lane. */
  function Scrambled(x: U64, key: U64): U64 {
    Xor64(Xor64(x, Shr47(x)), key) * 0x9E3779B1 % 0x1_0000_0000_0000_0000
  }

  /** XXH3_scrambleAcc_scalar. */
  method ScrambleScalar(acc: array<U64>, secret: Lanes)
    requires acc.Length == 8
    modifies acc
    ensures forall k | 0 <= k < 8 :: acc[k] == Scrambled(old(acc[k]), secret[k])
  {
    hide Xor64;
    for i := 0 to 8
      invariant forall k | 0 <= k < i :: acc[k] == Scrambled(old(acc[k]), secret[k])
      invariant forall k | i <= k < 8 :: acc[k] == old(acc[k])
    {
      var key64 := secret[i];
      var acc64 := acc[i];
      acc64 := Xor64(acc64, Shr47(acc64));
      acc64 := Xor64(acc64, key64);
      acc64 := acc64 * PRIME32_1 % 0x1_0000_0000_0000_0000;
      acc[i] := acc64;
    }
  }

  /** A product with a 32-bit factor from the products of the halves. */
  lemma SplitProduct(x: U64)
    ensures Add64(Mult32to64(Lo(x), 0x9E3779B1), Shl32(Mult32to64(Hi(x), 0x9E3779B1)))
         == x * 0x9E3779B1 % 0x1_0000_0000_0000_0000
  {
    LoHi(x);
    var lo, hi := Lo(x) * 0x9E3779B1, Hi(x) * 0x9E3779B1;
    AddMod(hi * 0x1_0000_0000, lo);
  }

  /** One vector of XXH3_scrambleAcc_avx2. */
  function ScrambleVec(acc: Vector, key: Vector): Vector {
    var prime32 := [0x9E37_79B1_9E37_79B1, 0x9E37_79B1_9E37_79B1, 0x9E37_79B1_9E37_79B1, 0x9E37_79B1_9E37_79B1];
    var data := XorVec(acc, Shr47Vec(acc));
    var dataKey := XorVec(data, key);
    var prodLo := MulLowVec(dataKey, prime32);
    var prodHi := MulLowVec(Shr32Vec(dataKey), prime32);
    AddVec(prodLo, Shl32Vec(prodHi))
  }

  lemma ScrambleVecLanes(acc: Lanes, secret: Lanes, i: nat, j: nat)
    requires i < 2 && j < 4
    ensures ScrambleVec(VectorAt(acc, i), VectorAt(secret, i))[j] == Scrambled(acc[4 * i + j], secret[4 * i + j])
  {
    hide Xor64, Mult32to64, Shl32, Add64, Hi, Shr47;
    var k := 4 * i + j;
    var x := Xor64(Xor64(acc[k], Shr47(acc[k])), secret[k]);
    LoHiSmall(x);
    SplitProduct(x);
    assert Lo(0x9E37_79B1_9E37_79B1) == 0x9E3779B1;
  }

  /** XXH3_scrambleAcc_avx2: the same lanes as the scalar loop, for every input. */
  method ScrambleAvx2(acc: array<U64>, secret: Lanes)
    requires acc.Length == 8
    modifies acc
    ensures forall k | 0 <= k < 8 :: acc[k] == Scrambled(old(acc[k]), secret[k])
  {
    hide ScrambleVec, Scrambled;
    ghost var was: Lanes := acc[..];
    for i := 0 to 2
      invariant forall k | 0 <= k < 4 * i :: acc[k] == Scrambled(was[k], secret[k])
      invariant forall k | 4 * i <= k < 8 :: acc[k] == was[k]
    {
      var v := ScrambleVec(VectorAt(acc[..], i), VectorAt(secret, i));
      assert VectorAt(acc[..], i) == VectorAt(was, i);
      ScrambleVecLanes(was, secret, i, 0);
      ScrambleVecLanes(was, secret, i, 1);
      ScrambleVecLanes(was, secret, i, 2);
      ScrambleVecLanes(was, secret, i, 3);
      acc[4 * i], acc[4 * i + 1], acc[4 * i + 2], acc[4 * i + 3] := v[0], v[1], v[2], v[3];
    }
  }
}
