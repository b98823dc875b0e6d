/** XXH32 and XXH64: the buffered streaming form against the one-shot form, for any mixing functions. */
module XxhClassic {
  import opened Octets
  import opened Sequences

  /** The mixing functions of one of the two hashes: the bytes in a lane (4 or 8), the round of a lane,
      mergeAccs, and finalize on the bytes left over. */
  datatype Kernel = Kernel(lane: nat, round: (nat, Bytes) -> nat, merge: seq<nat> -> nat,
                           finalize: (nat, Bytes) -> nat)
  {
    predicate Valid() {
      lane == 4 || lane == 8
    }

    function Block(): nat {
      4 * lane
    }
  }

  type Accs = a: seq<nat> | |a| == 4 witness [0, 0, 0, 0]

  // ----- Reference.

  /** One block: each lane takes its own word. */
  function Mix(k: Kernel, acc: Accs, block: Bytes): Accs
    requires k.Valid() && |block| == k.Block()
  {
    [k.round(acc[0], block[..k.lane]), k.round(acc[1], block[k.lane..2 * k.lane]),
     k.round(acc[2], block[2 * k.lane..3 * k.lane]), k.round(acc[3], block[3 * k.lane..])]
  }

  /** All whole blocks of the data. */
  function Consume(k: Kernel, acc: Accs, data: Bytes): Accs
    requires k.Valid()
    decreases |data|
  {
    if |data| < k.Block() then acc else Consume(k, Mix(k, acc, data[..k.Block()]), data[k.Block()..])
  }

  /** What is left after them. */
  function Tail(k: Kernel, data: Bytes): (t: Bytes)
    requires k.Valid()
    ensures |t| < k.Block() && |t| <= |data|
    decreases |data|
  {
    if |data| < k.Block() then data else Tail(k, data[k.Block()..])
  }

  /** XXH32_initAccs. */
  function InitAccs32(seed: nat): Accs {
    [(seed + 0x9E3779B1 + 0x85EBCA77) % 0x1_0000_0000, (seed + 0x85EBCA77) % 0x1_0000_0000, seed,
     (seed + 0x1_0000_0000 - 0x9E3779B1) % 0x1_0000_0000]
  }

  /** XXH64_initAccs. */
  function InitAccs64(seed: nat): Accs {
    [(seed + 0x9E3779B185EBCA87 + 0xC2B2AE3D27D4EB4F) % 0x1_0000_0000_0000_0000,
     (seed + 0xC2B2AE3D27D4EB4F) % 0x1_0000_0000_0000_0000, seed,
     (seed + 0x1_0000_0000_0000_0000 - 0x9E3779B185EBCA87) % 0x1_0000_0000_0000_0000]
  }

  /** XXH32. */
  function OneShot32(k: Kernel, seed: nat, data: Bytes): nat
    requires k.Valid() && k.lane == 4
  {
    var h := if |data| >= 16 then k.merge(Consume(k, InitAccs32(seed), data))
             else (seed + 0x165667B1) % 0x1_0000_0000;
    k.finalize((h + |data| % 0x1_0000_0000) % 0x1_0000_0000, Tail(k, data))
  }

  /** XXH64. */
  function OneShot64(k: Kernel, seed: nat, data: Bytes): nat
    requires k.Valid() && k.lane == 8
  {
    var h := if |data| >= 32 then k.merge(Consume(k, InitAccs64(seed), data))
             else (seed + 0x27D4EB2F165667C5) % 0x1_0000_0000_0000_0000;
    k.finalize((h + |data| % 0x1_0000_0000_0000_0000) % 0x1_0000_0000_0000_0000, Tail(k, data))
  }

  /** Consuming can be interrupted anywhere: the tail of the first part goes before the second. */
  lemma {:induction false} ConsumeAppend(k: Kernel, acc: Accs, a: Bytes, b: Bytes)
    requires k.Valid()
    ensures Consume(k, acc, a + b) == Consume(k, Consume(k, acc, a), Tail(k, a) + b)
    ensures Tail(k, a + b) == Tail(k, Tail(k, a) + b)
    decreases |a|
  {
    hide Mix;
    var n := k.Block();
    if |a| >= n {
      assert (a + b)[..n] == a[..n] && (a + b)[n..] == a[n..] + b;
      ConsumeAppend(k, Mix(k, acc, a[..n]), a[n..], b);
    }
  }

  lemma {:induction false} TailLength32(k: Kernel, data: Bytes)
    requires k.Valid() && k.lane == 4
    ensures |Tail(k, data)| == |data| % 16
    decreases |data|
  {
    if |data| >= 16 {
      TailLength32(k, data[16..]);
    }
  }

  lemma {:induction false} TailLength64(k: Kernel, data: Bytes)
    requires k.Valid() && k.lane == 8
    ensures |Tail(k, data)| == |data| % 32
    decreases |data|
  {
    if |data| >= 32 {
      TailLength64(k, data[32..]);
    }
  }

  /** XXH32_consumeLong and XXH64_consumeLong: the accumulators in place, and how far the input was read. */
  method ConsumeLong(k: Kernel, acc: array<nat>, input: Bytes) returns (read: nat)
    requires k.Valid() && acc.Length == 4 && |input| >= k.Block()
    modifies acc
    ensures acc[..] == Consume(k, old(acc[..]), input)
    ensures read <= |input| && input[read..] == Tail(k, input)
  {
    hide Consume, Tail;
    var n, lane := k.Block(), k.lane;
    ConsumeFirst(k, acc[..], input);
    acc[0] := k.round(acc[0], input[..lane]);
    acc[1] := k.round(acc[1], input[lane..2 * lane]);
    acc[2] := k.round(acc[2], input[2 * lane..3 * lane]);
    acc[3] := k.round(acc[3], input[3 * lane..4 * lane]);
    read := n;
    assert acc[..] == Mix(k, old(acc[..]), input[..n]);
    while |input| - read > n - 1
      invariant n <= read <= |input|
      invariant Consume(k, acc[..], input[read..]) == Consume(k, old(acc[..]), input)
      invariant Tail(k, input[read..]) == Tail(k, input)
    {
      ghost var was: Accs, rest := acc[..], input[read..];
      ConsumeFirst(k, was, rest);
      acc[0] := k.round(acc[0], input[read..][..lane]);
      acc[1] := k.round(acc[1], input[read..][lane..2 * lane]);
      acc[2] := k.round(acc[2], input[read..][2 * lane..3 * lane]);
      acc[3] := k.round(acc[3], input[read..][3 * lane..4 * lane]);
      assert acc[..] == Mix(k, was, rest[..n]);
      assert rest[n..] == input[read + n..];
      read := read + n;
    }
    ConsumeNone(k, acc[..], input[read..]);
  }

  lemma ConsumeFirst(k: Kernel, acc: Accs, data: Bytes)
    requires k.Valid() && |data| >= k.Block()
    ensures Consume(k, acc, data) == Consume(k, Mix(k, acc, data[..k.Block()]), data[k.Block()..])
    ensures Tail(k, data) == Tail(k, data[k.Block()..])
    ensures data[..k.Block()][..k.lane] == data[..k.lane]
    ensures data[..k.Block()][k.lane..2 * k.lane] == data[k.lane..2 * k.lane]
    ensures data[..k.Block()][2 * k.lane..3 * k.lane] == data[2 * k.lane..3 * k.lane]
    ensures data[..k.Block()][3 * k.lane..] == data[3 * k.lane..4 * k.lane]
  {
    var n, lane := k.Block(), k.lane;
    assert data[..n] == data[0..n] && data[0..lane] == data[..lane];
    SubSlice(data, 0, n, 0, lane);
    SubSlice(data, 0, n, lane, 2 * lane);
    SubSlice(data, 0, n, 2 * lane, 3 * lane);
    SubSlice(data, 0, n, 3 * lane, 4 * lane);
  }

  lemma FillSplit(held: Bytes, input: Bytes, x: nat)
    requires x <= |input|
    ensures (held + input)[..|held| + x] == held + input[..x] && (held + input)[|held| + x..] == input[x..]
  {
  }

  lemma ConsumeNone(k: Kernel, acc: Accs, data: Bytes)
    requires k.Valid() && |data| < k.Block()
    ensures Consume(k, acc, data) == acc && Tail(k, data) == data
  {
  }

  // ----- The part of the two states that is alike.

  class Core {
    const k: Kernel
    const acc: array<nat>
    const buffer: array<bv8>
    var bufferedSize: nat
    ghost const first: Accs
    ghost var fed: Bytes

    ghost predicate Valid()
      reads this, acc, buffer
    {
      && k.Valid() && acc.Length == 4 && buffer.Length == k.Block()
      && bufferedSize == |Tail(k, fed)|
      && acc[..] == Consume(k, first, fed)
      && buffer[..bufferedSize] == Tail(k, fed)
    }

    /** memset and initAccs. */
    constructor (kernel: Kernel, initial: Accs)
      requires kernel.Valid()
      ensures Valid() && k == kernel && first == initial && fed == [] && fresh(acc) && fresh(buffer)
    {
      k := kernel;
      first, fed := initial, [];
      acc := new nat[4](i requires 0 <= i < 4 => initial[i]);
      buffer := new bv8[kernel.Block()](_ => 0);
      bufferedSize := 0;
    }

    /** memcpy to a place in the buffer. */
    method Copy(at: nat, input: Bytes)
      requires at + |input| <= buffer.Length
      modifies buffer
      ensures buffer[..at + |input|] == old(buffer[..at]) + input
    {
      for j := 0 to |input|
        invariant buffer[..at + j] == old(buffer[..at]) + input[..j]
      {
        buffer[at + j] := input[j];
        assert buffer[..at + j + 1] == buffer[..at + j] + [input[j]];
        assert input[..j + 1] == input[..j] + [input[j]];
      }
      assert input[..|input|] == input;
    }

    /** A partly filled buffer is completed and consumed first. */
    method Flush(input: Bytes) returns (xinput: nat)
      requires k.Valid() && acc.Length == 4 && buffer.Length == k.Block()
      requires bufferedSize < k.Block() && |input| >= k.Block() - bufferedSize
      modifies this`bufferedSize, acc, buffer
      ensures bufferedSize == 0 && xinput <= |input|
      ensures Consume(k, acc[..], input[xinput..])
           == Consume(k, old(acc[..]), old(buffer[..bufferedSize]) + input)
      ensures Tail(k, input[xinput..]) == Tail(k, old(buffer[..bufferedSize]) + input)
    {
      hide Consume, Tail, Mix;
      xinput := 0;
      ghost var held := buffer[..bufferedSize];
      if bufferedSize > 0 {
        var n := k.Block();
        xinput := n - bufferedSize;
        Copy(bufferedSize, input[..xinput]);
        assert buffer[..n] == buffer[..];
        ConsumeFirst(k, acc[..], held + input);
        FillSplit(held, input, xinput);
        ghost var was := acc[..];
        var read := ConsumeLong(k, acc, buffer[..]);
        OneBlock(k, was, buffer[..]);
        bufferedSize := 0;
      } else {
        assert held + input == input[xinput..];
      }
    }

    /** The body of XXH32_update and XXH64_update after the counters. */
    method Absorb(input: Bytes)
      requires Valid()
      modifies this`bufferedSize, this`fed, acc, buffer
      ensures Valid() && fed == old(fed) + input
    {
      hide Consume, Tail, Mix;
      var n := k.Block();
      ghost var held := Tail(k, fed);
      ConsumeAppend(k, first, fed, input);
      fed := fed + input;
      if |input| < n - bufferedSize {
        Copy(bufferedSize, input);
        bufferedSize := bufferedSize + |input|;
        ConsumeNone(k, acc[..], held + input);
        return;
      }
      var xinput := Flush(input);
      if |input| - xinput >= n {
        var read := ConsumeLong(k, acc, input[xinput..]);
        assert input[xinput..][read..] == input[xinput + read..];
        xinput := xinput + read;
      } else {
        ConsumeNone(k, acc[..], input[xinput..]);
      }
      assert acc[..] == Consume(k, first, fed) && input[xinput..] == Tail(k, fed);
      if xinput < |input| {
        Copy(0, input[xinput..]);
        bufferedSize := |input| - xinput;
        assert buffer[..0] == [] && [] + input[xinput..] == input[xinput..];
      }
    }
  }

  lemma OneBlock(k: Kernel, acc: Accs, block: Bytes)
    requires k.Valid() && |block| == k.Block()
    ensures Consume(k, acc, block) == Mix(k, acc, block)
  {
    assert block[..k.Block()] == block && block[k.Block()..] == [];
  }

  // ----- XXH32.

  /** The wrapped counter, and what it can tell when the true one passes 16. */
  lemma CounterStep(total: nat, len: nat)
    ensures (total % 0x1_0000_0000 + len % 0x1_0000_0000) % 0x1_0000_0000 == (total + len) % 0x1_0000_0000
    ensures total < 16 && len < 16 ==> (total + len) % 0x1_0000_0000 == total + len
    ensures (total + len) % 0x1_0000_0000 >= 16 ==> total + len >= 16
  {
    AddMod32(total % 0x1_0000_0000, len);
    AddMod32(len, total);
  }

  lemma AddMod32(a: nat, b: nat)
    ensures (a + b % 0x1_0000_0000) % 0x1_0000_0000 == (a + b) % 0x1_0000_0000
  {
  }

  class State32 {
    const core: Core
    const seed: nat
    var totalLen32: nat
    var largeLen: bool

    ghost predicate Valid()
      reads this, core, core.acc, core.buffer
    {
      && core.Valid() && core.k.lane == 4 && core.first == InitAccs32(seed)
      && totalLen32 == |core.fed| % 0x1_0000_0000
      && largeLen == (|core.fed| >= 16)
    }

    /** XXH32_reset. */
    constructor (kernel: Kernel, s: nat)
      requires kernel.Valid() && kernel.lane == 4
      ensures Valid() && core.k == kernel && seed == s && core.fed == []
      ensures fresh(core) && fresh(core.acc) && fresh(core.buffer)
    {
      core := new Core(kernel, InitAccs32(s));
      seed, totalLen32, largeLen := s, 0, false;
    }

    /** XXH32_update: the length wraps at 32 bits and large_len remembers what it no longer tells. */
    method Update(input: Bytes)
      requires Valid()
      modifies this, core, core.acc, core.buffer
      ensures Valid() && core.fed == old(core.fed) + input
    {
      hide Consume, Tail, InitAccs32;
      CounterStep(|core.fed|, |input|);
      totalLen32 := (totalLen32 + |input| % 0x1_0000_0000) % 0x1_0000_0000;
      largeLen := largeLen || |input| >= 16 || totalLen32 >= 16;
      core.Absorb(input);
    }

    /** XXH32_digest. */
    method Digest() returns (h: nat)
      requires Valid()
      ensures h == OneShot32(core.k, seed, core.fed)
    {
      hide Tail;
      if largeLen {
        h := core.k.merge(core.acc[..]);
      } else {
        ConsumeNone(core.k, core.first, core.fed);
        assert core.acc[2] == core.acc[..][2] == seed;
        h := (core.acc[2] + 0x165667B1) % 0x1_0000_0000;
      }
      h := (h + totalLen32) % 0x1_0000_0000;
      h := core.k.finalize(h, core.buffer[..core.bufferedSize]);
    }
  }

  // ----- XXH64.

  class State64 {
    const core: Core
    const seed: nat
    var totalLen: nat

    ghost predicate Valid()
      reads this, core, core.acc, core.buffer
    {
      && core.Valid() && core.k.lane == 8 && core.first == InitAccs64(seed)
      && totalLen == |core.fed| < 0x1_0000_0000_0000_0000
    }

    /** XXH64_reset. */
    constructor (kernel: Kernel, s: nat)
      requires kernel.Valid() && kernel.lane == 8
      ensures Valid() && core.k == kernel && seed == s && core.fed == []
      ensures fresh(core) && fresh(core.acc) && fresh(core.buffer)
    {
      core := new Core(kernel, InitAccs64(s));
      seed, totalLen := s, 0;
    }

    /** XXH64_update. */
    method Update(input: Bytes)
      requires Valid() && |core.fed| + |input| < 0x1_0000_0000_0000_0000
      modifies this, core, core.acc, core.buffer
      ensures Valid() && core.fed == old(core.fed) + input
    {
      totalLen := (totalLen + |input|) % 0x1_0000_0000_0000_0000;
      core.Absorb(input);
    }

    /** XXH64_digest: the bytes in the buffer are counted from the total length. */
    method Digest() returns (h: nat)
      requires Valid()
      ensures h == OneShot64(core.k, seed, core.fed)
    {
      hide Tail;
      TailLength64(core.k, core.fed);
      if totalLen >= 32 {
        h := core.k.merge(core.acc[..]);
      } else {
        ConsumeNone(core.k, core.first, core.fed);
        assert core.acc[2] == core.acc[..][2] == seed;
        h := (core.acc[2] + 0x27D4EB2F165667C5) % 0x1_0000_0000_0000_0000;
      }
      h := (h + totalLen) % 0x1_0000_0000_0000_0000;
      h := core.k.finalize(h, core.buffer[..totalLen % 32]);
    }
  }

  // ----- The one-shot functions.

  /** XXH32_endian_align: the tail is what the length says is left, the low four bits of it. */
  method HashOnce32(k: Kernel, seed: nat, input: Bytes) returns (h: nat)
    requires k.Valid() && k.lane == 4
    ensures h == OneShot32(k, seed, input)
  {
    hide Consume, Tail, InitAccs32;
    var read := 0;
    TailLength32(k, input);
    if |input| >= 16 {
      var first := InitAccs32(seed);
      var acc := new nat[4](i requires 0 <= i < 4 => first[i]);
      assert acc[..] == first;
      read := ConsumeLong(k, acc, input);
      h := k.merge(acc[..]);
    } else {
      ConsumeNone(k, InitAccs32(seed), input);
      h := (seed + 0x165667B1) % 0x1_0000_0000;
    }
    h := (h + |input| % 0x1_0000_0000) % 0x1_0000_0000;
    TailIs(k, input, read, |input| % 16);
    h := k.finalize(h, input[read..read + |input| % 16]);
  }

  /** XXH64_endian_align, with the masking of the length in XXH64_finalize. */
  method HashOnce64(k: Kernel, seed: nat, input: Bytes) returns (h: nat)
    requires k.Valid() && k.lane == 8
    ensures h == OneShot64(k, seed, input)
  {
    hide Consume, Tail, InitAccs64;
    var read := 0;
    TailLength64(k, input);
    if |input| >= 32 {
      var first := InitAccs64(seed);
      var acc := new nat[4](i requires 0 <= i < 4 => first[i]);
      assert acc[..] == first;
      read := ConsumeLong(k, acc, input);
      h := k.merge(acc[..]);
    } else {
      ConsumeNone(k, InitAccs64(seed), input);
      h := (seed + 0x27D4EB2F165667C5) % 0x1_0000_0000_0000_0000;
    }
    h := (h + |input| % 0x1_0000_0000_0000_0000) % 0x1_0000_0000_0000_0000;
    TailIs(k, input, read, |input| % 32);
    h := k.finalize(h, input[read..read + |input| % 32]);
  }

  lemma TailIs(k: Kernel, input: Bytes, read: nat, n: nat)
    requires k.Valid() && read <= |input| && |Tail(k, input)| == n
    requires input[read..] == Tail(k, input) || (read == 0 && Tail(k, input) == input)
    ensures read + n == |input| && input[read..read + n] == Tail(k, input)
  {
    assert input[0..] == input;
  }

  /** XXH32 over any pieces, of any total length, is XXH32 over all of them. */
  method HashPieces32(k: Kernel, seed: nat, pieces: seq<Bytes>) returns (h: nat)
    requires k.Valid() && k.lane == 4
    ensures h == OneShot32(k, seed, Concat(pieces))
  {
    hide OneShot32;
    var state := new State32(k, seed);
    for i := 0 to |pieces|
      invariant state.Valid() && state.core.k == k && state.seed == seed && state.core.fed == Concat(pieces[..i])
      invariant fresh(state) && fresh(state.core) && fresh(state.core.acc) && fresh(state.core.buffer)
    {
      assert pieces[..i + 1][..i] == pieces[..i];
      state.Update(pieces[i]);
    }
    assert pieces[..|pieces|] == pieces;
    h := state.Digest();
  }

  /** XXH64 over any pieces is XXH64 over all of them. */
  method HashPieces64(k: Kernel, seed: nat, pieces: seq<Bytes>) returns (h: nat)
    requires k.Valid() && k.lane == 8 && |Concat(pieces)| < 0x1_0000_0000_0000_0000
    ensures h == OneShot64(k, seed, Concat(pieces))
  {
    hide OneShot64;
    var state := new State64(k, seed);
    for i := 0 to |pieces|
      invariant state.Valid() && state.core.k == k && state.seed == seed && state.core.fed == Concat(pieces[..i])
      invariant fresh(state) && fresh(state.core) && fresh(state.core.acc) && fresh(state.core.buffer)
    {
      assert pieces[..i + 1][..i] == pieces[..i];
      ConcatPrefix(pieces, i + 1);
      state.Update(pieces[i]);
    }
    assert pieces[..|pieces|] == pieces;
    h := state.Digest();
  }
}
