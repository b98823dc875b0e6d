/** XXH3 (64 bits): the buffered streaming form against the one-shot form, for any stripe
    accumulation, scramble and finalization. */
module Xxh3 {
  import opened Octets
  import opened Sequences

  /** The mixing functions: the initial accumulators, XXH3_accumulate_512 (accumulators, 64 input
      bytes, 64 secret bytes), XXH3_scrambleAcc, XXH3_finalizeLong_64b, XXH3_initCustomSecret, and the
      hash of at most 240 bytes under a secret and a seed. */
  datatype Kernel<!A> = Kernel(
    initial: A,
    stripe: (A, Bytes, Bytes) -> A,
    scramble: (A, Bytes) -> A,
    finalizeLong: (A, Bytes, nat) -> nat,
    initCustomSecret: nat -> Bytes,
    short: (Bytes, Bytes, nat) -> nat,
    kSecret: Bytes)
  {
    ghost predicate Valid() {
      && |kSecret| == 192
      && forall seed: nat :: |initCustomSecret(seed)| == 192
    }
  }

  const SECRET_SIZE_MIN: nat := 136
  const MIDSIZE_MAX: nat := 240
  const LENGTH_LIMIT: nat := 0x1_0000_0000_0000_0000

  // ----- Reference: stripe by stripe.

  /** Stripes per block: each stripe consumes eight secret bytes. */
  function StripesPerBlock(secret: Bytes): (nb: nat)
    requires |secret| >= SECRET_SIZE_MIN
    ensures nb >= 9 && 8 * nb + 64 <= |secret|
  {
    (|secret| - 64) / 8
  }

  /** The position within its block of the stripe that follows the first n. */
  function Pos(n: nat, nb: nat): (p: nat)
    requires nb > 0
    ensures p < nb
  {
    if n == 0 then 0
    else if Pos(n - 1, nb) + 1 == nb then 0 else Pos(n - 1, nb) + 1
  }

  /** The accumulators after n stripes of data, the last scramble of a completed block still due. */
  function Before<A>(k: Kernel<A>, secret: Bytes, data: Bytes, n: nat): A
    requires |secret| >= SECRET_SIZE_MIN && 64 * n <= |data|
    decreases n, 0
  {
    if n == 0 then k.initial
    else
      var p := 8 * Pos(n - 1, StripesPerBlock(secret));
      k.stripe(After(k, secret, data, n - 1), data[64 * (n - 1)..64 * n], secret[p..p + 64])
  }

  /** The accumulators after n stripes of data, with a scramble at every completed block. */
  function After<A>(k: Kernel<A>, secret: Bytes, data: Bytes, n: nat): A
    requires |secret| >= SECRET_SIZE_MIN && 64 * n <= |data|
    decreases n, 1
  {
    if n > 0 && Pos(n, StripesPerBlock(secret)) == 0
    then k.scramble(Before(k, secret, data, n), secret[|secret| - 64..])
    else Before(k, secret, data, n)
  }

  /** The accumulators of the whole input: all stripes that start before its last byte, then the
      last 64 bytes once more under their own part of the secret. */
  function LongAcc<A>(k: Kernel<A>, secret: Bytes, data: Bytes): A
    requires |secret| >= SECRET_SIZE_MIN && |data| >= 64
  {
    k.stripe(After(k, secret, data, (|data| - 1) / 64), data[|data| - 64..], secret[|secret| - 71..|secret| - 7])
  }

  function LongHash<A>(k: Kernel<A>, secret: Bytes, data: Bytes): nat
    requires |secret| >= SECRET_SIZE_MIN && |data| >= 64
  {
    k.finalizeLong(LongAcc(k, secret, data), secret, |data|)
  }

  /** How a hash is keyed. */
  datatype Keying =
    | Default
    | WithSecret(secret: Bytes)
    | WithSeed(seed: nat)
    | WithSecretAndSeed(secret: Bytes, seed: nat)
  {
    predicate Valid() {
      (WithSecret? || WithSecretAndSeed?) ==> |secret| >= SECRET_SIZE_MIN
    }
  }

  /** XXH3_64bits, _withSecret, _withSeed and _withSecretandSeed. */
  function OneShot<A>(k: Kernel<A>, keying: Keying, data: Bytes): nat
    requires k.Valid() && keying.Valid()
  {
    if |data| <= MIDSIZE_MAX then
      match keying
      case Default => k.short(data, k.kSecret, 0)
      case WithSecret(secret) => k.short(data, secret, 0)
      case WithSeed(seed) => k.short(data, k.kSecret, seed)
      case WithSecretAndSeed(_, seed) => k.short(data, k.kSecret, seed)
    else
      match keying
      case Default => LongHash(k, k.kSecret, data)
      case WithSecret(secret) => LongHash(k, secret, data)
      case WithSeed(seed) => LongHash(k, if seed == 0 then k.kSecret else k.initCustomSecret(seed), data)
      case WithSecretAndSeed(secret, _) => LongHash(k, secret, data)
  }

  // ----- Facts about positions and prefixes.

  /** Within a block the position counts up. */
  lemma {:induction false} PosWithin(s: nat, i: nat, nb: nat)
    requires nb > 0 && Pos(s, nb) + i <= nb
    ensures Pos(s + i, nb) == if Pos(s, nb) + i == nb then 0 else Pos(s, nb) + i
  {
    if i > 0 {
      PosWithin(s, i - 1, nb);
      assert s + i - 1 == s + (i - 1);
    }
  }

  lemma {:induction false} AfterPrefix<A>(k: Kernel<A>, secret: Bytes, a: Bytes, b: Bytes, n: nat)
    requires |secret| >= SECRET_SIZE_MIN && 64 * n <= |a| && a <= b
    ensures After(k, secret, a, n) == After(k, secret, b, n)
    ensures Before(k, secret, a, n) == Before(k, secret, b, n)
  {
    if n > 0 {
      AfterPrefix(k, secret, a, b, n - 1);
      assert a[64 * (n - 1)..64 * n] == b[64 * (n - 1)..64 * n];
    }
  }

  lemma BeforeStep<A>(k: Kernel<A>, secret: Bytes, data: Bytes, n: nat, stripe: Bytes, p: nat)
    requires |secret| >= SECRET_SIZE_MIN && 64 * (n + 1) <= |data|
    requires stripe == data[64 * n..64 * (n + 1)] && p == Pos(n, StripesPerBlock(secret))
    ensures Before(k, secret, data, n + 1) == k.stripe(After(k, secret, data, n), stripe, secret[8 * p..8 * p + 64])
  {
  }

  // ----- XXH3_accumulate and XXH3_consumeStripes.

  /** XXH3_accumulate: n stripes in a row under consecutive secret positions from the position of stripe s on. */
  method Accumulate<A>(k: Kernel<A>, acc: A, input: Bytes, secret: Bytes, secretPos: nat, n: nat,
                       ghost data: Bytes, ghost s: nat)
    returns (acc': A)
    requires |secret| >= SECRET_SIZE_MIN && 64 * (s + n) <= |data| && 64 * n <= |input|
    requires input[..64 * n] == data[64 * s..64 * (s + n)]
    requires secretPos == 8 * Pos(s, StripesPerBlock(secret))
    requires Pos(s, StripesPerBlock(secret)) + n <= StripesPerBlock(secret)
    requires acc == After(k, secret, data, s)
    ensures acc' == if n == 0 then acc else Before(k, secret, data, s + n)
  {
    hide Before, After, Pos, StripesPerBlock;
    acc' := acc;
    var i := 0;
    while i < n
      invariant i <= n
      invariant acc' == if i == 0 then acc else Before(k, secret, data, s + i)
    {
      WithinBlock(k, secret, data, s, i, n);
      var stripe := input[64 * i..64 * (i + 1)];
      SubSlice(input, 0, 64 * n, 64 * i, 64 * (i + 1));
      SubSlice(data, 64 * s, 64 * (s + n), 64 * i, 64 * (i + 1));
      BeforeStep(k, secret, data, s + i, stripe, Pos(s, StripesPerBlock(secret)) + i);
      acc' := k.stripe(acc', stripe, secret[secretPos + 8 * i..secretPos + 8 * i + 64]);
      i := i + 1;
    }
  }

  /** No scramble is due within a block. */
  lemma WithinBlock<A>(k: Kernel<A>, secret: Bytes, data: Bytes, s: nat, i: nat, n: nat)
    requires |secret| >= SECRET_SIZE_MIN && 64 * (s + i) <= |data| && i < n
    requires Pos(s, StripesPerBlock(secret)) + n <= StripesPerBlock(secret)
    ensures Pos(s + i, StripesPerBlock(secret)) == Pos(s, StripesPerBlock(secret)) + i
    ensures 8 * (Pos(s, StripesPerBlock(secret)) + i) + 64 <= |secret|
    ensures i > 0 ==> After(k, secret, data, s + i) == Before(k, secret, data, s + i)
  {
    PosWithin(s, i, StripesPerBlock(secret));
  }

  /** At the end of a block the scramble is due; within it none is. */
  lemma BlockEnd<A>(k: Kernel<A>, secret: Bytes, data: Bytes, s: nat, n: nat)
    requires |secret| >= SECRET_SIZE_MIN && 64 * (s + n) <= |data| && n > 0
    requires Pos(s, StripesPerBlock(secret)) + n <= StripesPerBlock(secret)
    ensures Pos(s, StripesPerBlock(secret)) + n == StripesPerBlock(secret) ==>
      Pos(s + n, StripesPerBlock(secret)) == 0
    ensures Pos(s, StripesPerBlock(secret)) + n == StripesPerBlock(secret) ==>
      After(k, secret, data, s + n) == k.scramble(Before(k, secret, data, s + n), secret[|secret| - 64..])
    ensures Pos(s, StripesPerBlock(secret)) + n < StripesPerBlock(secret) ==>
      Pos(s + n, StripesPerBlock(secret)) == Pos(s, StripesPerBlock(secret)) + n
    ensures Pos(s, StripesPerBlock(secret)) + n < StripesPerBlock(secret) ==>
      After(k, secret, data, s + n) == Before(k, secret, data, s + n)
  {
    PosWithin(s, n, StripesPerBlock(secret));
  }

  /** XXH3_consumeStripes: n stripes that may span block ends; data[64 * s..] is what they are part of. */
  method ConsumeStripes<A>(k: Kernel<A>, acc: A, nbStripesSoFar: nat, nbStripesPerBlock: nat, input: Bytes,
                           nbStripes: nat, secret: Bytes, secretLimit: nat, ghost data: Bytes, ghost s: nat)
    returns (acc': A, soFar': nat, rest: Bytes)
    requires |secret| >= SECRET_SIZE_MIN && secretLimit == |secret| - 64
    requires nbStripesPerBlock == StripesPerBlock(secret) && nbStripesSoFar == Pos(s, nbStripesPerBlock)
    requires 64 * (s + nbStripes) <= |data| && 64 * nbStripes <= |input|
    requires input[..64 * nbStripes] == data[64 * s..64 * (s + nbStripes)]
    requires acc == After(k, secret, data, s)
    ensures acc' == After(k, secret, data, s + nbStripes) && soFar' == Pos(s + nbStripes, nbStripesPerBlock)
    ensures rest == input[64 * nbStripes..]
  {
    hide Before, After, Pos, StripesPerBlock;
    acc', soFar', rest := acc, nbStripesSoFar, input;
    var left := nbStripes;
    var initialSecret := 8 * nbStripesSoFar;
    ghost var t := s;
    if left >= nbStripesPerBlock - nbStripesSoFar {
      var thisIter := nbStripesPerBlock - nbStripesSoFar;
      var again := true;
      while again
        invariant 0 <= left && t + left == s + nbStripes && rest == input[64 * (t - s)..] && s <= t
        invariant acc' == After(k, secret, data, t)
        invariant again ==> thisIter == nbStripesPerBlock - Pos(t, nbStripesPerBlock) <= left
        invariant initialSecret == 8 * Pos(t, nbStripesPerBlock)
        invariant !again ==> Pos(t, nbStripesPerBlock) == 0 && left < nbStripesPerBlock
        decreases left, again
      {
        SameStripes(input, rest, data, s, t, nbStripes, left, thisIter);
        acc' := Accumulate(k, acc', rest, secret, initialSecret, thisIter, data, t);
        BlockEnd(k, secret, data, t, thisIter);
        acc' := k.scramble(acc', secret[secretLimit..]);
        rest := rest[64 * thisIter..];
        left := left - thisIter;
        t := t + thisIter;
        thisIter := nbStripesPerBlock;
        initialSecret := 0;
        again := left >= nbStripesPerBlock;
      }
      soFar' := 0;
    }
    if left > 0 {
      SameStripes(input, rest, data, s, t, nbStripes, left, left);
      acc' := Accumulate(k, acc', rest, secret, initialSecret, left, data, t);
      BlockEnd(k, secret, data, t, left);
      rest := rest[64 * left..];
      soFar' := soFar' + left;
    }
  }

  lemma SameStripes(input: Bytes, rest: Bytes, data: Bytes, s: nat, t: nat, n: nat, left: nat, m: nat)
    requires s <= t && t + left == s + n && m <= left
    requires 64 * (s + n) <= |data| && 64 * n <= |input| && input[..64 * n] == data[64 * s..64 * (s + n)]
    requires rest == input[64 * (t - s)..]
    ensures rest[..64 * m] == data[64 * t..64 * (t + m)]
  {
    var d, y := 64 * (t - s), input[..64 * n];
    assert rest[..64 * m] == input[d..d + 64 * m] by {
      SubSlice(input, d, |input|, 0, 64 * m);
    }
    assert y[d..d + 64 * m] == input[d..d + 64 * m] by {
      SubSlice(input, 0, 64 * n, d, d + 64 * m);
    }
    assert y[d..d + 64 * m] == data[64 * t..64 * (t + m)] by {
      SubSlice(data, 64 * s, 64 * (s + n), d, d + 64 * m);
    }
  }

  // ----- The one-shot long hash.

  /** The number of whole blocks of d bytes in x, and the offset of block n. */
  function BlocksIn(x: nat, d: nat): nat
    requires d > 0
  {
    x / d
  }

  function Offset(n: nat, d: nat): nat {
    n * d
  }

  lemma BlocksInBounds(x: nat, d: nat)
    requires d > 0
    ensures Offset(BlocksIn(x, d), d) <= x < Offset(BlocksIn(x, d), d) + d && Offset(0, d) == 0
  {
    assert x == x / d * d + x % d;
  }

  lemma OffsetNext(n: nat, d: nat)
    ensures Offset(n + 1, d) == Offset(n, d) + d
  {
  }

  lemma {:induction false} NextBlock(n: nat, m: nat, d: nat)
    requires n < m
    ensures Offset(n, d) + d == Offset(n + 1, d) <= Offset(m, d)
    decreases m
  {
    hide Offset;
    OffsetNext(n, d);
    if n + 1 < m {
      NextBlock(n, m - 1, d);
      OffsetNext(m - 1, d);
    }
  }

  lemma StartOfData<A>(k: Kernel<A>, secret: Bytes, data: Bytes)
    requires |secret| >= SECRET_SIZE_MIN
    ensures After(k, secret, data, 0) == k.initial && Pos(0, StripesPerBlock(secret)) == 0
  {
  }

  /** XXH3_hashLong_internal_loop: whole blocks, then the last partial block, then the last stripe. */
  method HashLong<A>(k: Kernel<A>, input: Bytes, secret: Bytes) returns (acc: A)
    requires |secret| >= SECRET_SIZE_MIN && |input| > 64
    ensures acc == LongAcc(k, secret, input)
  {
    hide Before, After, Pos, StripesPerBlock, BlocksIn, Offset;
    var nbStripesPerBlock := StripesPerBlock(secret);
    var blockLen := 64 * nbStripesPerBlock;
    var nbBlocks := BlocksIn(|input| - 1, blockLen);
    BlocksInBounds(|input| - 1, blockLen);
    acc := k.initial;
    StartOfData(k, secret, input);
    var n := 0;
    ghost var t := 0;
    while n < nbBlocks
      invariant 0 <= n <= nbBlocks && 0 <= t && 64 * t == Offset(n, blockLen) <= Offset(nbBlocks, blockLen)
      invariant acc == After(k, secret, input, t) && Pos(t, nbStripesPerBlock) == 0
    {
      NextBlock(n, nbBlocks, blockLen);
      acc := Accumulate(k, acc, input[Offset(n, blockLen)..], secret, 0, nbStripesPerBlock, input, t);
      BlockEnd(k, secret, input, t, nbStripesPerBlock);
      acc := k.scramble(acc, secret[|secret| - 64..]);
      n := n + 1;
      t := t + nbStripesPerBlock;
    }
    var nbStripes := (|input| - 1 - Offset(nbBlocks, blockLen)) / 64;
    acc := Accumulate(k, acc, input[Offset(nbBlocks, blockLen)..], secret, 0, nbStripes, input, t);
    if nbStripes > 0 {
      BlockEnd(k, secret, input, t, nbStripes);
    }
    assert (|input| - 1) / 64 == t + nbStripes;
    acc := k.stripe(acc, input[|input| - 64..], secret[|secret| - 71..|secret| - 7]);
  }

  // ----- Streaming.

  datatype ExtSecret = None | Ext(secret: Bytes)

  class State<A> {
    const k: Kernel<A>
    var acc: A
    const buffer: array<bv8>
    var bufferedSize: nat
    var nbStripesSoFar: nat
    var nbStripesPerBlock: nat
    var secretLimit: nat
    var totalLen: nat
    var seed: nat
    var useSeed: bool
    /** The caller's secret, or None when the custom secret is in use. */
    var extSecret: ExtSecret
    var customSecret: Bytes
    /** The keying of the last successful reset, all bytes taken in since, and how many stripes of
        them have been accumulated. */
    ghost var keying: Keying
    ghost var fed: Bytes
    ghost var s: nat

    /** What every reset may rely on: a custom secret in use belongs to the seed on record. */
    ghost predicate Initialized()
      reads this`extSecret, this`seed, this`customSecret
      ensures Initialized() ==> k.Valid() && buffer.Length == 256
    {
      && k.Valid() && buffer.Length == 256
      && (extSecret.None? && seed != 0 ==> customSecret == k.initCustomSecret(seed))
    }

    function Secret(): Bytes
      reads this`extSecret, this`customSecret
    {
      if extSecret.None? then customSecret else extSecret.secret
    }

    /** The secret and seed fields agree with the keying. */
    ghost predicate Keyed()
      reads this`keying, this`extSecret, this`customSecret, this`useSeed, this`seed, this`secretLimit,
        this`nbStripesPerBlock
      ensures Keyed() ==> keying.Valid() && |Secret()| >= SECRET_SIZE_MIN
      ensures Keyed() ==> secretLimit == |Secret()| - 64 && nbStripesPerBlock == StripesPerBlock(Secret())
    {
      && keying.Valid() && |Secret()| >= SECRET_SIZE_MIN
      && secretLimit == |Secret()| - 64 && nbStripesPerBlock == StripesPerBlock(Secret())
      && match keying
         case Default => extSecret == Ext(k.kSecret) && !useSeed
         case WithSecret(secret) => extSecret == Ext(secret) && !useSeed
         case WithSeed(sd) =>
           if sd == 0 then extSecret == Ext(k.kSecret) && !useSeed
           else extSecret.None? && customSecret == k.initCustomSecret(sd) && useSeed && seed == sd
         case WithSecretAndSeed(secret, sd) => extSecret == Ext(secret) && useSeed && seed == sd
    }

    /** The buffered bytes follow the accumulated stripes; while less than a stripe is buffered, the
        end of the buffer still holds the bytes just before them. */
    ghost predicate Buffered(data: Bytes, n: nat, size: nat)
      reads buffer
      requires buffer.Length == 256
    {
      && size <= 256 && |data| == 64 * n + size
      && buffer[..size] == data[64 * n..]
      && (n > 0 ==> size > 0)
      && (n > 0 && size < 64 ==> buffer[192 + size..] == data[64 * n - (64 - size)..64 * n])
    }

    ghost predicate Valid()
      reads this, buffer
    {
      && Initialized() && Keyed()
      && |fed| == totalLen < LENGTH_LIMIT
      && Buffered(fed, s, bufferedSize) && (s > 0 ==> totalLen > 256)
      && acc == After(k, Secret(), fed, s) && nbStripesSoFar == Pos(s, nbStripesPerBlock)
    }

    /** XXH3_INITSTATE: no seed and no secret on record, everything else arbitrary. */
    constructor (k: Kernel<A>, customSecret: Bytes)
      requires k.Valid()
      ensures Initialized() && this.k == k && fresh(buffer)
    {
      this.k, this.customSecret := k, customSecret;
      acc := k.initial;
      buffer := new bv8[256];
      bufferedSize, nbStripesSoFar, nbStripesPerBlock, secretLimit, totalLen := 0, 0, 0, 0, 0;
      seed, useSeed, extSecret := 0, false, None;
      keying, fed, s := Default, [], 0;
    }

    /** The memset and the initial accumulators of XXH3_reset_internal. */
    method Clear()
      modifies this`acc, this`bufferedSize, this`nbStripesSoFar, this`totalLen, this`fed, this`s
      ensures acc == k.initial && bufferedSize == nbStripesSoFar == totalLen == 0 && fed == [] && s == 0
    {
      bufferedSize, nbStripesSoFar, totalLen := 0, 0, 0;
      acc := k.initial;
      fed, s := [], 0;
    }

    /** XXH3_reset_internal. */
    method ResetInternal(seed: nat, extSecret: ExtSecret, secretSize: nat)
      requires secretSize < LENGTH_LIMIT
      requires buffer.Length == 256
      modifies this`acc, this`bufferedSize, this`nbStripesSoFar, this`nbStripesPerBlock, this`secretLimit,
        this`totalLen, this`seed, this`useSeed, this`extSecret, this`fed, this`s
      ensures this.seed == seed && useSeed == (seed != 0) && this.extSecret == extSecret
      ensures secretSize >= 64 ==> secretLimit == secretSize - 64
      ensures nbStripesPerBlock == secretLimit / 8
      ensures acc == k.initial && bufferedSize == nbStripesSoFar == totalLen == 0 && fed == [] && s == 0
    {
      Clear();
      this.seed, useSeed, this.extSecret := seed, seed != 0, extSecret;
      secretLimit := if secretSize >= 64 then secretSize - 64 else secretSize + LENGTH_LIMIT - 64;
      nbStripesPerBlock := secretLimit / 8;
    }

    /** XXH3_64bits_reset. */
    method Reset()
      requires Initialized()
      modifies this
      ensures Valid() && keying == Default && fed == []
    {
      ResetInternal(0, Ext(k.kSecret), 192);
      keying := Default;
      StartOfData(k, Secret(), fed);
    }

    /** XXH3_64bits_reset_withSecret. A null or short secret is reported, and leaves no usable state
        but one that can be reset again. */
    method ResetWithSecret(secret: ExtSecret, secretSize: nat) returns (ok: bool)
      requires Initialized() && secretSize < LENGTH_LIMIT && (secret.Ext? ==> secretSize == |secret.secret|)
      modifies this
      ensures Initialized() && ok == (secret.Ext? && |secret.secret| >= SECRET_SIZE_MIN)
      ensures ok ==> Valid() && keying == WithSecret(secret.secret) && fed == []
    {
      ResetInternal(0, secret, secretSize);
      if secret.None? {
        return false;
      }
      if secretSize < SECRET_SIZE_MIN {
        return false;
      }
      keying := WithSecret(secret.secret);
      StartOfData(k, Secret(), fed);
      return true;
    }

    /** XXH3_64bits_reset_withSeed: the custom secret is derived again only when it has to be. */
    method ResetWithSeed(seed: nat)
      requires Initialized()
      modifies this
      ensures Valid() && keying == WithSeed(seed) && fed == []
    {
      if seed == 0 {
        Reset();
        keying := WithSeed(0);
        return;
      }
      if seed != this.seed || !extSecret.None? {
        customSecret := k.initCustomSecret(seed);
      }
      ResetInternal(seed, None, 192);
      keying := WithSeed(seed);
      StartOfData(k, Secret(), fed);
    }

    /** XXH3_64bits_reset_withSecretandSeed. */
    method ResetWithSecretAndSeed(secret: ExtSecret, secretSize: nat, seed: nat) returns (ok: bool)
      requires Initialized() && secretSize < LENGTH_LIMIT && (secret.Ext? ==> secretSize == |secret.secret|)
      modifies this
      ensures Initialized() && ok == (secret.Ext? && |secret.secret| >= SECRET_SIZE_MIN)
      ensures ok ==> Valid() && keying == WithSecretAndSeed(secret.secret, seed) && fed == []
    {
      if secret.None? {
        return false;
      }
      if secretSize < SECRET_SIZE_MIN {
        return false;
      }
      ResetInternal(seed, secret, secretSize);
      useSeed := true;
      keying := WithSecretAndSeed(secret.secret, seed);
      StartOfData(k, Secret(), fed);
      return true;
    }

    /** memcpy into the buffer. */
    method Load(src: Bytes, at: nat)
      requires buffer.Length == 256 && at + |src| <= 256
      modifies buffer
      ensures buffer[..at] == old(buffer[..at]) && buffer[at..at + |src|] == src
      ensures buffer[at + |src|..] == old(buffer[at + |src|..])
      ensures forall i | at + |src| <= i < 256 :: buffer[i] == old(buffer[i])
    {
      forall i | 0 <= i < |src| {
        buffer[at + i] := src[i];
      }
    }

    /** The first n stripes of data are accumulated. */
    ghost predicate Consumed(data: Bytes, n: nat, a: A, soFar: nat)
      reads this`keying, this`extSecret, this`customSecret, this`useSeed, this`seed, this`secretLimit,
        this`nbStripesPerBlock
    {
      && Keyed() && 64 * n <= |data|
      && a == After(k, Secret(), data, n) && soFar == Pos(n, nbStripesPerBlock)
    }

    /** The end of the buffer holds the last accumulated stripe. */
    ghost predicate Tail(data: Bytes, n: nat)
      reads buffer
      requires buffer.Length == 256
    {
      n > 0 && 64 * n <= |data| && buffer[192..] == data[64 * n - 64..64 * n]
    }

    /** Completing a partly filled buffer and consuming all of it. */
    method ConsumeBuffer(input: Bytes, ghost data: Bytes, acc: A) returns (acc': A, rest: Bytes)
      requires buffer.Length == 256 && 0 < bufferedSize <= 256 && 256 - bufferedSize < |input|
      requires Consumed(data, s, acc, nbStripesSoFar)
      requires buffer[..bufferedSize] + input == data[64 * s..]
      modifies this`bufferedSize, this`nbStripesSoFar, this`s, buffer
      ensures s == old(s) + 4 && bufferedSize == 0
      ensures Consumed(data, s, acc', nbStripesSoFar) && Tail(data, s)
      ensures rest == data[64 * s..] != []
    {
      hide Before, After, Pos, StripesPerBlock, Keyed, Initialized;
      var loadSize := 256 - bufferedSize;
      ghost var held := buffer[..bufferedSize];
      Load(input[..loadSize], bufferedSize);
      rest := input[loadSize..];
      var all := buffer[..];
      assert all == buffer[..bufferedSize] + buffer[bufferedSize..bufferedSize + loadSize];
      FirstFour(data, s, held, input, loadSize);
      ghost var ignored;
      acc', nbStripesSoFar, ignored := ConsumeStripes(k, acc, nbStripesSoFar, nbStripesPerBlock, all, 4, Secret(),
                                                      secretLimit, data, s);
      bufferedSize := 0;
      s := s + 4;
    }

    /** Consuming stripes straight from a long input, keeping the last one at the end of the buffer. */
    method ConsumeInput(input: Bytes, ghost data: Bytes, acc: A) returns (acc': A, rest: Bytes)
      requires buffer.Length == 256 && |input| > 256
      requires Consumed(data, s, acc, nbStripesSoFar) && input == data[64 * s..]
      modifies this`nbStripesSoFar, this`s, buffer
      ensures s > old(s) && Consumed(data, s, acc', nbStripesSoFar) && Tail(data, s)
      ensures rest == data[64 * s..] && 0 < |rest| <= 64
    {
      hide Before, After, Pos, StripesPerBlock, Keyed, Initialized;
      var nbStripes := (|input| - 1) / 64;
      assert input[..64 * nbStripes] == data[64 * s..64 * (s + nbStripes)];
      acc', nbStripesSoFar, rest := ConsumeStripes(k, acc, nbStripesSoFar, nbStripesPerBlock, input, nbStripes,
                                                   Secret(), secretLimit, data, s);
      var last := input[64 * nbStripes - 64..64 * nbStripes];
      Load(last, 192);
      s := s + nbStripes;
      assert buffer[192..] == buffer[192..192 + |last|] == data[64 * s - 64..64 * s];
    }

    /** XXH3_update. */
    method Update(input: Bytes)
      requires Valid() && |fed| + |input| < LENGTH_LIMIT
      modifies this`totalLen, this`bufferedSize, this`nbStripesSoFar, this`acc, this`fed, this`s, buffer
      ensures Valid() && fed == old(fed) + input
    {
      hide Before, After, Pos, StripesPerBlock, Keyed, Initialized, Buffered;
      ghost var data := fed + input;
      BufferedBounds(fed, s, bufferedSize);
      Appended(fed, input, data, 64 * s);
      AfterPrefix(k, Secret(), fed, data, s);
      totalLen := totalLen + |input|;
      if |input| <= 256 - bufferedSize {
        Append(input, data);
      } else {
        Overflow(input, data);
      }
      fed := data;
      BufferedBounds(fed, s, bufferedSize);
    }

    lemma BufferedBounds(data: Bytes, n: nat, size: nat)
      requires buffer.Length == 256 && Buffered(data, n, size)
      ensures size <= 256 && |data| == 64 * n + size && (n > 0 ==> size > 0)
    {
    }

    lemma BufferedBytes(data: Bytes, n: nat, size: nat)
      requires buffer.Length == 256 && Buffered(data, n, size)
      ensures size <= 256 && |data| == 64 * n + size && (n > 0 ==> size > 0)
      ensures buffer[..size] == data[64 * n..]
      ensures n > 0 && size < 64 ==> buffer[192 + size..256] == data[64 * n - (64 - size)..64 * n]
    {
    }

    /** An input that does not fit: the buffer is consumed, then the input, and the rest buffered. */
    method Overflow(input: Bytes, ghost data: Bytes)
      requires buffer.Length == 256 && bufferedSize <= 256 && 256 - bufferedSize < |input|
      requires |input| <= |data| && Buffered(data[..|data| - |input|], s, bufferedSize)
      requires input == data[|data| - |input|..]
      requires Consumed(data, s, acc, nbStripesSoFar)
      modifies this`bufferedSize, this`nbStripesSoFar, this`acc, this`s, buffer
      ensures Consumed(data, s, acc, nbStripesSoFar) && Buffered(data, s, bufferedSize)
    {
      hide Before, After, Pos, StripesPerBlock, Keyed, Initialized, Consumed;
      var a, rest := acc, input;
      assert buffer[..bufferedSize] + input == data[64 * s..] by {
        Appended(data[..|data| - |input|], input, data, 64 * s);
      }
      if bufferedSize > 0 {
        a, rest := ConsumeBuffer(rest, data, a);
      } else {
        assert buffer[..bufferedSize] + input == input;
      }
      if |rest| > 256 {
        a, rest := ConsumeInput(rest, data, a);
      }
      Refill(rest, data);
      acc := a;
    }

    /** A small input just fills the buffer. */
    method Append(input: Bytes, ghost data: Bytes)
      requires buffer.Length == 256 && bufferedSize + |input| <= 256 && |input| <= |data|
      requires Buffered(data[..|data| - |input|], s, bufferedSize) && input == data[|data| - |input|..]
      modifies this`bufferedSize, buffer
      ensures Buffered(data, s, bufferedSize)
    {
      ghost var held, tail, size, fed' := buffer[..bufferedSize], buffer[192..], bufferedSize, data[..|data| - |input|];
      Load(input, bufferedSize);
      bufferedSize := bufferedSize + |input|;
      assert buffer[..bufferedSize] == buffer[..size] + buffer[size..size + |input|] == held + input;
      assert data == fed' + input;
      Appended(fed', input, data, 64 * s);
      if s > 0 && bufferedSize < 64 {
        assert buffer[192..] == tail;
        TailShift(data, fed', input, s, size, tail);
        assert buffer[192 + bufferedSize..] == buffer[192..][bufferedSize..];
      }
    }

    /** The remaining bytes go to the front of the empty buffer. */
    method Refill(rest: Bytes, ghost data: Bytes)
      requires buffer.Length == 256 && 0 < |rest| <= 256 && Tail(data, s)
      requires rest == data[64 * s..]
      modifies this`bufferedSize, buffer
      ensures Buffered(data, s, bufferedSize)
    {
      ghost var tail := buffer[192..];
      Load(rest, 0);
      bufferedSize := |rest|;
      assert buffer[..bufferedSize] == rest;
      if bufferedSize < 64 {
        assert buffer[192 + bufferedSize..] == tail[bufferedSize..];
      }
    }

    /** XXH3_digest_long. */
    method DigestLong() returns (a: A)
      requires Valid() && totalLen > MIDSIZE_MAX
      ensures a == LongAcc(k, Secret(), fed)
    {
      hide Before, After, Pos, StripesPerBlock, Keyed, Initialized, Buffered;
      BufferedBytes(fed, s, bufferedSize);
      var lastStripe: Bytes;
      a := acc;
      if bufferedSize >= 64 {
        var nbStripes := (bufferedSize - 1) / 64;
        ghost var soFar, rest;
        var input := buffer[..bufferedSize];
        HeldStripes(fed, s, input, nbStripes);
        a, soFar, rest := ConsumeStripes(k, a, nbStripesSoFar, nbStripesPerBlock, input, nbStripes, Secret(),
                                         secretLimit, fed, s);
        lastStripe := input[bufferedSize - 64..bufferedSize];
      } else {
        var catchupSize := 64 - bufferedSize;
        lastStripe := buffer[256 - catchupSize..256] + buffer[..bufferedSize];
        CaughtUp(fed, s, buffer[256 - catchupSize..256], buffer[..bufferedSize]);
      }
      a := k.stripe(a, lastStripe, Secret()[secretLimit - 7..secretLimit + 57]);
    }

    /** XXH3_64bits_digest: the one-shot hash of everything taken in since the last reset. */
    method Digest() returns (h: nat)
      requires Valid()
      ensures h == OneShot(k, keying, fed)
    {
      hide LongAcc, After, Pos;
      if totalLen > MIDSIZE_MAX {
        var a := DigestLong();
        h := k.finalizeLong(a, Secret(), totalLen);
        return;
      }
      assert buffer[..totalLen] == fed by {
        ShortIsBuffered();
      }
      if useSeed {
        h := OneShot(k, WithSeed(seed), buffer[..totalLen]);
      } else {
        h := OneShot(k, WithSecret(Secret()), buffer[..totalLen]);
      }
    }

    /** Until the buffer has overflowed once nothing is accumulated. */
    lemma ShortIsBuffered()
      requires Valid() && totalLen <= MIDSIZE_MAX
      ensures s == 0 && buffer[..totalLen] == fed
    {
    }
  }

  // ----- Whole runs.

  /** The one-shot functions, computed block by block. */
  method HashOnce<A>(k: Kernel<A>, keying: Keying, data: Bytes) returns (h: nat)
    requires k.Valid() && keying.Valid()
    ensures h == OneShot(k, keying, data)
  {
    hide LongAcc;
    if |data| <= MIDSIZE_MAX {
      h := k.short(data, if keying.WithSecret? then keying.secret else k.kSecret,
                   if keying.WithSeed? || keying.WithSecretAndSeed? then keying.seed else 0);
      return;
    }
    var secret := k.kSecret;
    if keying.WithSecret? || keying.WithSecretAndSeed? {
      secret := keying.secret;
    } else if keying.WithSeed? && keying.seed != 0 {
      secret := k.initCustomSecret(keying.seed);
    }
    var acc := HashLong(k, data, secret);
    h := k.finalizeLong(acc, secret, |data|);
  }

  /** For every keying and every way of cutting the input, streaming gives the one-shot hash, on a
      state used before for anything else. */
  method HashPieces<A>(state: State<A>, keying: Keying, pieces: seq<Bytes>) returns (h: nat)
    requires state.Initialized() && keying.Valid()
    requires |Concat(pieces)| < LENGTH_LIMIT
    requires keying.WithSecret? || keying.WithSecretAndSeed? ==> |keying.secret| < LENGTH_LIMIT
    modifies state, state.buffer
    ensures h == OneShot(state.k, keying, Concat(pieces))
  {
    hide OneShot, Concat, State.Valid, State.Initialized;
    var ok := true;
    ConcatNone<bv8>();
    match keying {
      case Default => state.Reset();
      case WithSecret(secret) => ok := state.ResetWithSecret(Ext(secret), |secret|);
      case WithSeed(seed) => state.ResetWithSeed(seed);
      case WithSecretAndSeed(secret, seed) => ok := state.ResetWithSecretAndSeed(Ext(secret), |secret|, seed);
    }
    var i := 0;
    while i < |pieces|
      invariant i <= |pieces|
      invariant state.Valid() && state.keying == keying && state.fed == Concat(pieces[..i])
    {
      ConcatNext(pieces, i);
      ConcatPrefix(pieces, i + 1);
      state.Update(pieces[i]);
      i := i + 1;
    }
    assert pieces[..i] == pieces;
    h := state.Digest();
  }

  lemma Appended(fed: Bytes, input: Bytes, data: Bytes, n: nat)
    requires data == fed + input && n <= |fed|
    ensures fed <= data && data[..|data| - |input|] == fed && data[|data| - |input|..] == input
    ensures data[n..] == fed[n..] + input
  {
  }

  lemma TailShift(data: Bytes, fed: Bytes, input: Bytes, s: nat, size: nat, tail: Bytes)
    requires data == fed + input && s > 0 && 64 * s <= |fed| && size + |input| < 64 && |tail| == 64
    requires tail[size..] == fed[64 * s - (64 - size)..64 * s]
    ensures tail[size + |input|..] == data[64 * s - (64 - size - |input|)..64 * s]
  {
    var n := size + |input|;
    forall j | n <= j < 64 ensures tail[j] == data[64 * s - 64 + j] {
      assert tail[size..][j - size] == fed[64 * s - (64 - size)..64 * s][j - size];
    }
    var t, d := tail[n..], data[64 * s - (64 - n)..64 * s];
    forall i | 0 <= i < 64 - n ensures t[i] == d[i] {
      assert t[i] == tail[n + i] && d[i] == data[64 * s - 64 + (n + i)];
    }
    assert t == d;
  }

  /** At least a stripe is held: its whole stripes that start before the last byte, and the last 64 bytes. */
  lemma HeldStripes(data: Bytes, s: nat, held: Bytes, n: nat)
    requires 64 * s <= |data| && held == data[64 * s..] && |held| >= 64 && n == (|held| - 1) / 64
    ensures 64 * (s + n) <= |data| && held[..64 * n] == data[64 * s..64 * (s + n)] && (|data| - 1) / 64 == s + n
    ensures held[|held| - 64..|held|] == data[|data| - 64..]
  {
    SubSlice(data, 64 * s, |data|, 0, 64 * n);
    SubSlice(data, 64 * s, |data|, |held| - 64, |held|);
  }

  /** Less than a stripe is held: the bytes just before it complete the last 64. */
  lemma CaughtUp(data: Bytes, s: nat, before: Bytes, held: Bytes)
    requires 0 < s && 0 < |held| < 64 && |data| == 64 * s + |held| && held == data[64 * s..]
    requires before == data[64 * s - (64 - |held|)..64 * s]
    ensures before + held == data[|data| - 64..] && (|data| - 1) / 64 == s
  {
  }

  lemma FirstFour(data: Bytes, s: nat, held: Bytes, input: Bytes, n: nat)
    requires 64 * s <= |data| && held + input == data[64 * s..] && |held| + n == 256 && n <= |input|
    ensures held + input[..n] == data[64 * s..64 * (s + 4)] && input[n..] == data[64 * (s + 4)..]
  {
    assert held + input[..n] == (held + input)[..256];
    assert input[n..] == (held + input)[256..];
    SubSlice(data, 64 * s, |data|, 0, 256);
    SubSlice(data, 64 * s, |data|, 256, |data| - 64 * s);
  }
}
