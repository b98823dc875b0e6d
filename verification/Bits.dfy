/** Powers of two, bit counts and masks on unbounded naturals, with the bit tricks
    of blake3_impl.h proved against them. */
module Bits {

  /** 2 to the power k. */
  function Pow2(k: nat): (p: nat)
    ensures p >= 1
  {
    if k == 0 then 1 else 2 * Pow2(k - 1)
  }

  /** The number of 1-bits of n. */
  function PopCount(n: nat): nat {
    if n == 0 then 0 else n % 2 + PopCount(n / 2)
  }

  /** Bitwise conjunction. */
  function And(a: nat, b: nat): nat {
    if a == 0 || b == 0 then 0
    else 2 * And(a / 2, b / 2) + (if a % 2 == 1 && b % 2 == 1 then 1 else 0)
  }

  /** n << k. */
  function Shl(n: nat, k: nat): nat {
    if k == 0 then n else 2 * Shl(n, k - 1)
  }

  /** n >> k. */
  function Shr(n: nat, k: nat): nat {
    if k == 0 then n else Shr(n / 2, k - 1)
  }

  /** The k lowest bits of n. */
  function Low(n: nat, k: nat): (r: nat)
    ensures r < Pow2(k)
  {
    if k == 0 then 0 else 2 * Low(n / 2, k - 1) + n % 2
  }

  /** The largest power of two that is at most n. */
  function LargestPow2(n: nat): (p: nat)
    requires n >= 1
    ensures p <= n < 2 * p
  {
    if n == 1 then 1 else 2 * LargestPow2(n / 2)
  }

  /** Bitwise disjunction. */
  function Or(a: nat, b: nat): nat
    decreases a + b
  {
    if a == 0 && b == 0 then 0 else 2 * Or(a / 2, b / 2) + (if a % 2 == 1 || b % 2 == 1 then 1 else 0)
  }

  /** The complement on k bits. */
  function Not(a: nat, k: nat): (n: nat)
    requires a < Pow2(k)
  {
    Pow2(k) - 1 - a
  }

  /** Bitwise exclusive or. */
  function Xor(a: nat, b: nat): nat
    decreases a + b
  {
    if a == 0 && b == 0 then 0 else 2 * Xor(a / 2, b / 2) + (if a % 2 == b % 2 then 0 else 1)
  }

  // ----- Shifts and powers of two.

  lemma {:induction false} ShlAdd(m: nat, n: nat, k: nat)
    ensures Shl(m + n, k) == Shl(m, k) + Shl(n, k)
  {
    if k > 0 {
      ShlAdd(m, n, k - 1);
    }
  }

  lemma {:induction false} ShlDouble(n: nat, k: nat)
    ensures Shl(2 * n, k) == Shl(n, k + 1) == 2 * Shl(n, k)
  {
    if k > 0 {
      ShlDouble(n, k - 1);
    }
  }

  lemma ShlMonotone(m: nat, n: nat, k: nat)
    requires m <= n
    ensures Shl(m, k) <= Shl(n, k)
  {
    ShlAdd(m, n - m, k);
  }

  lemma {:induction false} ShlZero(k: nat)
    ensures Shl(0, k) == 0
  {
    if k > 0 {
      ShlZero(k - 1);
    }
  }

  lemma {:induction false} ShlOne(j: nat, k: nat)
    ensures Shl(Pow2(j), k) == Pow2(j + k)
  {
    if k > 0 {
      ShlOne(j, k - 1);
    }
  }

  lemma {:induction false} LargestPow2Exponent(n: nat) returns (k: nat)
    requires n >= 1
    ensures LargestPow2(n) == Pow2(k)
  {
    if n == 1 {
      k := 0;
    } else {
      k := LargestPow2Exponent(n / 2);
      k := k + 1;
    }
  }

  lemma {:induction false} Pow2Gap(j: nat, k: nat)
    requires Pow2(j) < Pow2(k)
    ensures j < k && 2 * Pow2(j) <= Pow2(k)
  {
    if j > 0 && k > 0 {
      Pow2Gap(j - 1, k - 1);
    }
  }

  lemma {:induction false} Pow2Strict(j: nat, k: nat)
    requires j < k
    ensures Pow2(j) < Pow2(k)
  {
    if j + 1 < k {
      Pow2Strict(j, k - 1);
    }
  }

  /** Only one power of two p satisfies p <= n < 2 * p. */
  lemma LargestPow2Unique(n: nat, k: nat)
    requires n >= 1 && Pow2(k) <= n < 2 * Pow2(k)
    ensures LargestPow2(n) == Pow2(k)
  {
    var j := LargestPow2Exponent(n);
    if Pow2(j) < Pow2(k) {
      Pow2Gap(j, k);
    } else if Pow2(k) < Pow2(j) {
      Pow2Gap(k, j);
    }
  }

  // ----- Counting bits.

  lemma {:induction false} PopCountBound(n: nat, k: nat)
    requires n < Pow2(k)
    ensures PopCount(n) <= k
  {
    if n > 0 {
      PopCountBound(n / 2, k - 1);
    }
  }

  /** Adding one carries: it never adds more than one 1-bit. */
  lemma {:induction false} PopCountSucc(n: nat)
    ensures PopCount(n + 1) <= PopCount(n) + 1
    ensures n % 2 == 0 ==> PopCount(n + 1) == PopCount(n) + 1
    ensures n % 2 == 1 ==> PopCount(n + 1) <= PopCount(n)
  {
    if n % 2 == 1 {
      assert (n + 1) / 2 == n / 2 + 1;
      PopCountSucc(n / 2);
    } else {
      assert (n + 1) / 2 == n / 2;
    }
  }

  lemma PopCountPositive(n: nat)
    requires n > 0
    ensures PopCount(n) > 0
  {
  }

  /** Shifting keeps the number of 1-bits. */
  lemma {:induction false} PopCountShl(n: nat, k: nat)
    ensures PopCount(Shl(n, k)) == PopCount(n)
  {
    if k > 0 {
      PopCountShl(n, k - 1);
    }
  }

  // ----- Masks.

  lemma {:induction false} AndSelf(a: nat)
    ensures And(a, a) == a
  {
    if a > 0 {
      AndSelf(a / 2);
    }
  }

  lemma {:induction false} AndCommutes(a: nat, b: nat)
    ensures And(a, b) == And(b, a)
  {
    if a > 0 && b > 0 {
      AndCommutes(a / 2, b / 2);
    }
  }

  /** x & (x - 1) clears exactly the lowest 1-bit of x, at index j, and no other. */
  lemma {:induction false} AndPredecessor(x: nat) returns (j: nat)
    requires x > 0
    ensures Low(x, j) == 0 && Shr(x, j) % 2 == 1 && And(x, x - 1) + Pow2(j) == x
    ensures PopCount(And(x, x - 1)) == PopCount(x) - 1
  {
    hide And, Low, Shr, Pow2, PopCount;
    if x % 2 == 1 {
      j := 0;
      AndOdd(x);
    } else {
      j := AndPredecessor(x / 2);
      AndEvenPredecessor(x);
      DoubleLowest(x, And(x / 2, x / 2 - 1), j);
      j := j + 1;
    }
  }

  lemma AndOdd(x: nat)
    requires x % 2 == 1
    ensures Low(x, 0) == 0 && Shr(x, 0) == x && Pow2(0) == 1
    ensures And(x, x - 1) == x - 1 && PopCount(x - 1) == PopCount(x) - 1
  {
    AndSelf(x / 2);
    assert (x - 1) / 2 == x / 2;
  }

  /** Doubling moves the lowest 1-bit up by one. */
  lemma DoubleLowest(x: nat, y: nat, j: nat)
    requires x > 0 && x % 2 == 0 && Low(x / 2, j) == 0 && Shr(x / 2, j) % 2 == 1 && y + Pow2(j) == x / 2
    requires PopCount(y) == PopCount(x / 2) - 1
    ensures Low(x, j + 1) == 0 && Shr(x, j + 1) % 2 == 1 && 2 * y + Pow2(j + 1) == x
    ensures PopCount(2 * y) == PopCount(x) - 1
  {
    assert 2 * y / 2 == y;
  }

  lemma AndEvenPredecessor(x: nat)
    requires x > 0 && x % 2 == 0
    ensures And(x, x - 1) == 2 * And(x / 2, x / 2 - 1)
  {
    assert (x - 1) / 2 == x / 2 - 1;
  }

  lemma {:induction false} ShrLow(n: nat, k: nat)
    ensures n == Shl(Shr(n, k), k) + Low(n, k)
  {
    if k > 0 {
      ShrLow(n / 2, k - 1);
    }
  }

  /** A number below 2^k has only low bits. */
  lemma {:induction false} LowId(n: nat, k: nat)
    requires n < Pow2(k)
    ensures Low(n, k) == n && Shr(n, k) == 0
  {
    if k > 0 {
      LowId(n / 2, k - 1);
    }
  }

  /** Masking with 2^k - 1 keeps the k lowest bits. */
  lemma {:induction false} AndMask(n: nat, k: nat)
    ensures And(Pow2(k) - 1, n) == Low(n, k)
  {
    if k > 0 {
      AndMask(n / 2, k - 1);
      var h := Pow2(k - 1);
      assert (Pow2(k) - 1) / 2 == h - 1 && (Pow2(k) - 1) % 2 == 1;
      if n == 0 {
        LowId(0, k);
      }
    }
  }

  /** The mask test of the update loop: no bit below 2^k is set exactly for the multiples of 2^k. */
  lemma MaskTest(n: nat, k: nat)
    ensures And(Pow2(k) - 1, n) == 0 <==> n == Shl(Shr(n, k), k)
  {
    AndMask(n, k);
    ShrLow(n, k);
  }

  lemma AndEven(x: nat, b: nat)
    ensures And(x, 2 * b) == 2 * And(x / 2, b)
  {
    assert (2 * b) / 2 == b && (2 * b) % 2 == 0;
  }

  lemma {:induction false} AndShl(x: nat, y: nat, k: nat)
    ensures And(x, Shl(y, k)) == Shl(And(Shr(x, k), y), k)
  {
    if k > 0 {
      AndEven(x, Shl(y, k - 1));
      AndShl(x / 2, y, k - 1);
    }
  }

  /** The upper half of a word of 2k bits. */
  lemma ShrBounds(x: nat, k: nat)
    requires x < Pow2(k + k)
    ensures Shr(x, k) < Pow2(k)
    ensures Shr(x, k) > 0 <==> x >= Pow2(k)
  {
    ShrLow(x, k);
    var y := Shr(x, k);
    ShlOne(0, k);
    ShlOne(k, k);
    if y >= Pow2(k) {
      ShlMonotone(Pow2(k), y, k);
    }
    if y > 0 {
      ShlMonotone(1, y, k);
    } else {
      ShlZero(k);
    }
  }

  /** Testing the upper half of a word of 2k bits. */
  lemma AndUpperHalf(x: nat, k: nat, mask: nat)
    requires x < Pow2(k + k) && mask == Shl(Pow2(k) - 1, k)
    ensures And(x, mask) != 0 <==> x >= Pow2(k)
  {
    var y := Shr(x, k);
    AndShl(x, Pow2(k) - 1, k);
    ShrBounds(x, k);
    AndCommutes(y, Pow2(k) - 1);
    AndMask(y, k);
    LowId(y, k);
    if y > 0 {
      ShlMonotone(1, y, k);
      ShlOne(0, k);
    } else {
      ShlZero(k);
    }
  }

  // ----- Exclusive or.

  lemma {:induction false} XorTwice(a: nat, b: nat)
    ensures Xor(Xor(a, b), b) == a
    decreases a + b
  {
    if a != 0 || b != 0 {
      XorTwice(a / 2, b / 2);
      var r := Xor(a, b);
      assert r / 2 == Xor(a / 2, b / 2);
    }
  }

  lemma {:induction false} XorBound(a: nat, b: nat, k: nat)
    requires a < Pow2(k) && b < Pow2(k)
    ensures Xor(a, b) < Pow2(k)
  {
    if k > 0 {
      XorBound(a / 2, b / 2, k - 1);
    }
  }

  // ----- Three-way functions of words, bit by bit.

  lemma BitAnd(a: nat, b: nat)
    ensures And(a, b) / 2 == And(a / 2, b / 2)
    ensures And(a, b) % 2 == if a % 2 == 1 && b % 2 == 1 then 1 else 0
  {
    if a == 0 || b == 0 {
      assert And(a / 2, b / 2) == 0;
    }
  }

  lemma BitXor(a: nat, b: nat)
    ensures Xor(a, b) / 2 == Xor(a / 2, b / 2)
    ensures Xor(a, b) % 2 == if a % 2 == b % 2 then 0 else 1
  {
  }

  lemma BitOr(a: nat, b: nat)
    ensures Or(a, b) / 2 == Or(a / 2, b / 2)
    ensures Or(a, b) % 2 == if a % 2 == 1 || b % 2 == 1 then 1 else 0
  {
  }

  lemma BitNot(a: nat, k: nat)
    requires a < Pow2(k) && k > 0
    ensures a / 2 < Pow2(k - 1) && Not(a, k) / 2 == Not(a / 2, k - 1) && Not(a, k) % 2 == 1 - a % 2
  {
    assert Pow2(k) == 2 * Pow2(k - 1);
  }

  lemma SameBits(a: nat, b: nat)
    requires a / 2 == b / 2 && a % 2 == b % 2
    ensures a == b
  {
  }

  lemma {:induction false} AndBound(a: nat, b: nat, k: nat)
    requires a < Pow2(k)
    ensures And(a, b) < Pow2(k)
  {
    if k > 0 {
      AndBound(a / 2, b / 2, k - 1);
    }
  }

  lemma {:induction false} OrBound(a: nat, b: nat, k: nat)
    requires a < Pow2(k) && b < Pow2(k)
    ensures Or(a, b) < Pow2(k)
  {
    if k > 0 {
      OrBound(a / 2, b / 2, k - 1);
    }
  }

  /** A choice between two words, written with and without the complement. */
  lemma {:induction false} ChooseBits(x: nat, y: nat, z: nat, k: nat)
    requires x < Pow2(k) && y < Pow2(k) && z < Pow2(k)
    ensures Xor(And(x, Xor(y, z)), z) == Xor(And(x, y), And(Not(x, k), z))
  {
    if k > 0 {
      hide And, Xor, Not;
      BitNot(x, k);
      ChooseBits(x / 2, y / 2, z / 2, k - 1);
      var p, q := And(x, Xor(y, z)), And(Not(x, k), z);
      BitXor(y, z);
      BitAnd(x, Xor(y, z));
      BitXor(p, z);
      BitAnd(x, y);
      BitAnd(Not(x, k), z);
      BitXor(And(x, y), q);
      SameBits(Xor(p, z), Xor(And(x, y), q));
    }
  }

  /** A majority of three words, written two ways. */
  lemma {:induction false} MajorityBits(x: nat, y: nat, z: nat, k: nat)
    requires x < Pow2(k) && y < Pow2(k) && z < Pow2(k)
    ensures Or(And(Or(x, y), z), And(x, y)) == Xor(Xor(And(x, y), And(x, z)), And(y, z))
  {
    if k > 0 {
      hide And, Xor, Or;
      MajorityBits(x / 2, y / 2, z / 2, k - 1);
      BitOr(x, y);
      BitAnd(Or(x, y), z);
      BitAnd(x, y);
      BitAnd(x, z);
      BitAnd(y, z);
      BitOr(And(Or(x, y), z), And(x, y));
      BitXor(And(x, y), And(x, z));
      BitXor(Xor(And(x, y), And(x, z)), And(y, z));
      SameBits(Or(And(Or(x, y), z), And(x, y)), Xor(Xor(And(x, y), And(x, z)), And(y, z)));
    }
  }

  // ----- The functions of blake3_impl.h.

  /** popcnt, the portable loop. */
  method PopCnt(x: nat) returns (count: nat)
    ensures count == PopCount(x)
  {
    var rest := x;
    count := 0;
    while rest != 0
      invariant count + PopCount(rest) == PopCount(x)
    {
      ghost var j := AndPredecessor(rest);
      count := count + 1;
      rest := And(rest, rest - 1);
    }
  }

  /** c is the index of the highest 1-bit of x. */
  ghost predicate TopBit(x: nat, c: nat) {
    Pow2(c) <= x < 2 * Pow2(c)
  }

  lemma TopBitLift(x: nat, w: nat, k: nat)
    requires TopBit(Shr(x, w), k)
    ensures TopBit(x, w + k)
  {
    var y := Shr(x, w);
    ShrLow(x, w);
    ShlOne(k, w);
    ShlMonotone(Pow2(k), y, w);
    ShlMonotone(y + 1, Pow2(k + 1), w);
    ShlAdd(y, 1, w);
    ShlOne(0, w);
    ShlOne(k + 1, w);
  }

  /** One test of highest_one: when the upper w bits are not all zero, keep those. */
  method HighestOneStep(x: nat, w: nat, mask: nat) returns (y: nat, c: nat)
    requires 0 < x < Pow2(w + w) && mask == Shl(Pow2(w) - 1, w)
    ensures 0 < y < Pow2(w)
    ensures forall k: nat | TopBit(y, k) :: TopBit(x, c + k)
  {
    AndUpperHalf(x, w, mask);
    ShrBounds(x, w);
    if And(x, mask) != 0 {
      y, c := Shr(x, w), w;
      forall k: nat | TopBit(y, k) ensures TopBit(x, w + k) {
        TopBitLift(x, w, k);
      }
    } else {
      y, c := x, 0;
    }
  }

  lemma ShlFour(n: nat, k: nat)
    ensures Shl(n, k + 4) == 16 * Shl(n, k)
  {
    assert Shl(n, k + 2) == 4 * Shl(n, k);
  }

  lemma ShlSixteen(n: nat, k: nat)
    ensures Shl(n, k + 16) == 0x1_0000 * Shl(n, k)
  {
    ShlFour(n, k);
    ShlFour(n, k + 4);
    ShlFour(n, k + 8);
    ShlFour(n, k + 12);
  }

  lemma ShlTen(n: nat, k: nat)
    ensures Shl(n, k + 10) == 1024 * Shl(n, k)
  {
    ShlFour(n, k);
    ShlFour(n, k + 4);
  }

  lemma {:induction false} ShrShl(n: nat, k: nat)
    ensures Shr(Shl(n, k), k) == n
  {
    if k > 0 {
      assert Shl(n, k) / 2 == Shl(n, k - 1);
      ShrShl(n, k - 1);
    }
  }

  lemma Pow2Sixteen(k: nat)
    ensures Pow2(k + 16) == 0x1_0000 * Pow2(k)
  {
    ShlOne(0, k);
    ShlOne(0, k + 16);
    ShlSixteen(1, k);
  }

  lemma Pow2Small()
    ensures Pow2(0) == 1 && Pow2(1) == 2 && Pow2(2) == 4 && Pow2(4) == 16 && Pow2(6) == 64 && Pow2(8) == 256
    ensures Pow2(10) == 1024
  {
  }

  lemma Pow2Table()
    ensures Pow2(1) == 2 && Pow2(2) == 4 && Pow2(4) == 16 && Pow2(8) == 256 && Pow2(10) == 1024
    ensures Pow2(16) == 0x1_0000 && Pow2(32) == 0x1_0000_0000 && Pow2(64) == 0x1_0000_0000_0000_0000
    ensures Pow2(54) == 0x40_0000_0000_0000
  {
    Pow2Small();
    hide Pow2;
    Pow2Sixteen(0);
    Pow2Sixteen(16);
    Pow2Sixteen(32);
    Pow2Sixteen(48);
    Pow2Sixteen(6);
    Pow2Sixteen(22);
    Pow2Sixteen(38);
  }

  lemma MaskTable()
    ensures Shl(0xffff_ffff, 32) == 0xffff_ffff_0000_0000 && Shl(0xffff, 16) == 0xffff_0000
    ensures Shl(0xff, 8) == 0xff00 && Shl(0xf, 4) == 0xf0 && Shl(3, 2) == 0xc && Shl(1, 1) == 2
  {
    ShlSixteen(0xffff_ffff, 0);
    ShlSixteen(0xffff_ffff, 16);
    ShlSixteen(0xffff, 0);
    ShlFour(0xff, 0);
    ShlFour(0xff, 4);
  }

  /** The last four tests of highest_one, for a 16-bit word. */
  method HighestOneLow(x: nat) returns (c: nat)
    requires 0 < x < Pow2(16)
    ensures TopBit(x, c)
  {
    hide And, Shl, Pow2;
    var rest, step;
    Pow2Small();
    Pow2Sixteen(0);
    MaskTable();
    rest, c := HighestOneStep(x, 8, 0xff00);
    rest, step := HighestOneStep(rest, 4, 0xf0);
    c := c + step;
    rest, step := HighestOneStep(rest, 2, 0xc);
    c := c + step;
    step := if And(rest, 0x2) != 0 then 1 else 0;
    assert TopBit(rest, step) by {
      AndUpperHalf(rest, 1, 2);
    }
    c := c + step;
  }

  /** highest_one, the portable branches: the index of the highest 1-bit of a 64-bit word. */
  method HighestOne(x: nat) returns (c: nat)
    requires 0 < x < 0x1_0000_0000_0000_0000
    ensures TopBit(x, c)
  {
    var rest, step;
    Pow2Table();
    MaskTable();
    rest, c := HighestOneStep(x, 32, 0xffff_ffff_0000_0000);
    rest, step := HighestOneStep(rest, 16, 0xffff_0000);
    c := c + step;
    step := HighestOneLow(rest);
    c := c + step;
  }

  /** round_down_to_power_of_2: 1 << highest_one(x | 1). */
  method RoundDownToPowerOf2(x: nat) returns (p: nat)
    requires x < 0x1_0000_0000_0000_0000
    ensures p == LargestPow2(if x == 0 then 1 else x)
  {
    var odd := if x % 2 == 0 then x + 1 else x;
    var c := HighestOne(odd);
    p := Shl(1, c);
    ShlOne(0, c);
    LargestPow2Unique(if x == 0 then 1 else x, c);
  }
}
