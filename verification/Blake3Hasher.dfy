/** blake3_hasher: incremental hashing with a lazily merged stack of chaining values. */
module Blake3Hasher {
  import opened Sequences
  import opened Bits
  import opened MerkleTree
  import opened Octets
  import opened Blake3Spec
  import opened Blake3Chunk
  import opened Blake3Wide

  /** The largest power-of-two number of bytes that fits and evenly divides the count so far
      (the two inner steps of the update loop). */
  method SubtreeLen(restLen: nat, chunkCounter: nat) returns (subtreeLen: nat, ghost k: nat)
    requires 1024 < restLen < INPUT_LIMIT
    ensures subtreeLen == 1024 * Pow2(k) <= restLen
    ensures chunkCounter == Shl(Shr(1024 * chunkCounter, k + 10), k)
    ensures Pow2(k) == 1 ==> subtreeLen < restLen
    ensures And(subtreeLen - 1, 1024 * chunkCounter) == 0
    ensures forall i: nat | i > k + 10 && Pow2(i) <= restLen :: And(Pow2(i) - 1, 1024 * chunkCounter) != 0
  {
    hide Pow2, Shl, Shr, And, LargestPow2;
    subtreeLen := RoundDownToPowerOf2(restLen);
    var countSoFar := chunkCounter * 1024;
    ghost var e := AtLeastOneChunk(restLen);
    LargerDoNotFit(restLen, e);
    while And(subtreeLen - 1, countSoFar) != 0
      invariant e >= 10 && subtreeLen == Pow2(e) <= restLen
      invariant forall i: nat | i > e && Pow2(i) <= restLen :: And(Pow2(i) - 1, countSoFar) != 0
      decreases e
    {
      OneChunkDivides(chunkCounter);
      Pow2Half(e);
      subtreeLen := subtreeLen / 2;
      e := e - 1;
    }
    k := e - 10;
    MaskTest(countSoFar, e);
    ShlTen(Shr(countSoFar, e), k);
    Pow2Ten(k);
  }

  lemma AtLeastOneChunk(len: nat) returns (e: nat)
    requires len > 1024
    ensures LargestPow2(len) == Pow2(e) && e >= 10
  {
    e := LargestPow2Exponent(len);
    assert Pow2(10) == 1024 by {
      Pow2Table();
    }
    if Pow2(e) < Pow2(10) {
      Pow2Gap(e, 10);
    } else if e < 10 {
      Pow2Strict(e, 10);
    }
  }

  lemma LargerDoNotFit(len: nat, e: nat)
    requires len > 0 && LargestPow2(len) == Pow2(e)
    ensures forall i: nat | i > e :: Pow2(i) > len
  {
    hide Pow2, LargestPow2;
    forall i: nat | i > e ensures Pow2(i) > len {
      Pow2Strict(e, i);
      Pow2Gap(e, i);
    }
  }

  lemma OneChunkDivides(counter: nat)
    ensures And(Pow2(10) - 1, counter * 1024) == 0
  {
    hide And, Pow2;
    MaskTest(counter * 1024, 10);
    ShlTen(counter, 0);
    ShrShl(counter, 10);
  }

  /** A counter of chunks below the input limit has at most 54 bits. */
  lemma AtMost54Bits(chunkCounter: nat)
    requires 1024 * chunkCounter < INPUT_LIMIT
    ensures PopCount(chunkCounter) <= 54
  {
    Pow2Table();
    PopCountBound(chunkCounter, 54);
  }

  lemma Pow2Half(e: nat)
    requires e > 0
    ensures Pow2(e) / 2 == Pow2(e - 1)
  {
  }

  lemma Pow2Ten(k: nat)
    ensures Pow2(k + 10) == 1024 * Pow2(k)
  {
    ShlTen(1, k);
    ShlOne(0, k);
    ShlOne(0, k + 10);
  }

  /** parent_output. */
  method ParentOutput(m: Mode, left: CvBytes, right: CvBytes) returns (n: Node)
    ensures n == ParentNode(m, left, right)
  {
    n := Node(m.key, Join(left, right), 64, 0, m.flags + {Parent});
  }

  class Hasher {
    const p: Platform
    const f: Compressor
    const key: Cv
    const chunk: ChunkState
    const cvStack: array<CvBytes>
    var cvStackLen: nat
    ghost const alg: Alg<Node, CvBytes>
    ghost const mode: Mode
    /** Everything taken in so far. */
    ghost var absorbed: Bytes

    ghost function Stack(): seq<CvBytes>
      reads this`cvStackLen, cvStack
      requires cvStackLen <= cvStack.Length
    {
      cvStack[..cvStackLen]
    }

    /** The parts that no operation changes. */
    ghost predicate Fixed()
      reads this, chunk, cvStack
    {
      && p.Valid() && mode == Mode(f, key, chunk.flags) == chunk.M() && chunk.f == f
      && Realizes(alg, mode)
      && cvStack.Length == 55 && cvStackLen <= 55
    }

    /** The stack covers the first c chunks of data and merging it makes it canonical; when nothing
        follows them, it has at least two entries. */
    ghost predicate Mergeable(data: Bytes, c: nat, more: bool)
      reads this`cvStackLen, cvStack
      requires cvStackLen <= cvStack.Length
    {
      && 1024 * c <= |data|
      && ((Stack() == Roots(alg, data, c, 0) && (more || c == 0))
          || exists m: nat, k: nat :: (more || m > 0) && Lazy(alg, data, c, Stack(), m, k))
    }

    ghost predicate Valid()
      reads this, chunk, chunk.buf, cvStack
    {
      && Fixed() && chunk.Valid()
      && |absorbed| == 1024 * chunk.chunkCounter + |chunk.fed| < INPUT_LIMIT
      && chunk.fed == absorbed[1024 * chunk.chunkCounter..]
      && if chunk.fed == [] then Mergeable(absorbed, chunk.chunkCounter, false)
         else Stack() == Roots(alg, absorbed, chunk.chunkCounter, 0)
    }

    /** hasher_init_base. */
    constructor (p: Platform, m: Mode)
      requires p.Valid()
      ensures Valid() && absorbed == [] && mode == m && alg == TreeAlg(m)
      ensures fresh(chunk) && fresh(chunk.buf) && fresh(cvStack)
    {
      this.p, f, key, mode, alg := p, m.f, m.key, m, TreeAlg(m);
      chunk := new ChunkState(m.f, m.key, m.flags);
      cvStack := new CvBytes[55];
      cvStackLen := 0;
      absorbed := [];
      new;
      TreeAlgRealizes(m);
    }

    lemma LazyIsMergeable(data: Bytes, c: nat, m: nat, k: nat, more: bool)
      requires cvStackLen <= cvStack.Length && Lazy(alg, data, c, Stack(), m, k) && (more || m > 0)
      ensures Mergeable(data, c, more)
    {
    }

    lemma RootsAreMergeable(data: Bytes, c: nat)
      requires cvStackLen <= cvStack.Length && 1024 * c <= |data| && Stack() == Roots(alg, data, c, 0)
      ensures Mergeable(data, c, true)
    {
    }

    lemma MergeableEither(data: Bytes, c: nat)
      requires cvStackLen <= cvStack.Length && Mergeable(data, c, false)
      ensures Mergeable(data, c, true)
    {
      hide Roots;
    }

    /** hasher_merge_cv_stack: merges the top entries until as many are left as total has 1-bits. */
    method MergeCvStack(total: nat, ghost data: Bytes)
      requires Fixed() && Mergeable(data, total, true)
      modifies this`cvStackLen, cvStack
      ensures Fixed() && Stack() == Roots(alg, data, total, 0)
    {
      hide Roots, PopCount, Realizes, Lazy;
      var postMergeStackLen := PopCnt(total);
      ghost var lazy := Stack() != Roots(alg, data, total, 0);
      ghost var m: nat, k: nat := 0, 0;
      if lazy {
        m, k :| Lazy(alg, data, total, Stack(), m, k);
      }
      while cvStackLen > postMergeStackLen
        invariant Fixed()
        invariant if lazy then Lazy(alg, data, total, Stack(), m, k) else Stack() == Roots(alg, data, total, 0)
      {
        LazyCount(alg, data, total, Stack(), m, k);
        LazyMerge(alg, data, total, Stack(), m, k);
        m, k := m / 2, k + 1;
        MergeTop();
      }
      if lazy {
        LazyCount(alg, data, total, Stack(), m, k);
        LazyDone(alg, data, total, Stack(), m, k);
      }
    }

    /** One merge: the parent of the top two entries takes their place. */
    method MergeTop()
      requires Fixed() && cvStackLen >= 2
      modifies this`cvStackLen, cvStack
      ensures Fixed()
      ensures Stack() == old(Stack())[..old(cvStackLen) - 2]
        + [alg.chain(alg.parent(old(Stack())[old(cvStackLen) - 2], old(Stack())[old(cvStackLen) - 1]))]
    {
      var left, right := cvStack[cvStackLen - 2], cvStack[cvStackLen - 1];
      var output := ParentOutput(Mode(f, key, chunk.flags), left, right);
      cvStack[cvStackLen - 2] := OutputChainingValue(f, output);
      cvStackLen := cvStackLen - 1;
    }

    /** hasher_push_cv: merges lazily, then pushes the new value unmerged. */
    method PushCv(newCv: CvBytes, chunkCounter: nat, ghost data: Bytes)
      requires Fixed() && Mergeable(data, chunkCounter, true)
      requires 1024 * chunkCounter < INPUT_LIMIT
      modifies this`cvStackLen, cvStack
      ensures Fixed() && Stack() == Roots(alg, data, chunkCounter, 0) + [newCv]
    {
      hide Roots, Realizes, PopCount;
      MergeCvStack(chunkCounter, data);
      AtMost54Bits(chunkCounter);
      ghost var merged := Stack();
      cvStack[cvStackLen] := newCv;
      cvStackLen := cvStackLen + 1;
      assert Stack() == merged + [newCv];
    }

    /** Pushing the value of the subtree of 2^k chunks behind the first counter chunks. */
    method PushSub(newCv: CvBytes, chunkCounter: nat, ghost m: nat, ghost k: nat, ghost data: Bytes)
      requires Fixed() && Mergeable(data, chunkCounter, true)
      requires chunkCounter == Shl(m, k) && 1024 * (chunkCounter + Pow2(k)) <= |data| < INPUT_LIMIT
      requires newCv == Sub(alg, data, chunkCounter, Pow2(k))
      modifies this`cvStackLen, cvStack
      ensures Fixed() && Mergeable(data, chunkCounter + Pow2(k), true)
      ensures m > 0 ==> Mergeable(data, chunkCounter + Pow2(k), false)
    {
      hide Roots, Sub, Realizes, Shl, Pow2, PopCount, Mergeable, Lazy;
      PushCv(newCv, chunkCounter, data);
      LazyPush(alg, data, chunkCounter, Stack(), m, k);
      LazyIsMergeable(data, chunkCounter + Pow2(k), m, k, m == 0);
      if m > 0 {
        MergeableEither(data, chunkCounter + Pow2(k));
      }
    }

    /** The hasher between two subtrees: no chunk bytes, and rest still to come. */
    ghost predicate Between(data: Bytes, rest: Bytes)
      reads this, chunk, chunk.buf, cvStack
    {
      && Fixed() && chunk.Valid() && chunk.fed == []
      && 1024 * chunk.chunkCounter + |rest| == |data| < INPUT_LIMIT
      && rest == data[1024 * chunk.chunkCounter..]
      && Mergeable(data, chunk.chunkCounter, rest != [])
    }

    /** One round of the update loop: hash the largest subtree that fits and push its value,
        or its two top children. */
    method PushSubtree(rest: Bytes, ghost data: Bytes) returns (rest': Bytes)
      requires Between(data, rest) && |rest| > 1024
      modifies this`cvStackLen, cvStack, chunk`chunkCounter
      ensures Between(data, rest') && |rest'| < |rest|
    {
      hide Roots, Tree, Realizes, Shl, Shr, Pow2, PopCount, ChunkNode, Chain, LeftChunks, Mergeable;
      ghost var c := chunk.chunkCounter;
      ghost var k;
      var subtreeLen;
      subtreeLen, k := SubtreeLen(|rest|, chunk.chunkCounter);
      ghost var n := Shr(1024 * c, k + 10);
      var subtreeChunks := subtreeLen / 1024;
      var input := rest[..subtreeLen];
      ghost var s := Pow2(k);
      WholeChunks(s);
      SubtreeThenRest(data, rest, 1024 * c, 1024 * s);
      if subtreeLen <= 1024 {
        PushOneChunk(input, n, k, data);
      } else {
        PushPair(input, n, k, data);
        MergeableEither(data, c + s);
      }
      chunk.SetCounter(chunk.chunkCounter + subtreeChunks);
      rest' := rest[subtreeLen..];
    }

    method PushOneChunk(input: Bytes, ghost n: nat, ghost k: nat, ghost data: Bytes)
      requires Fixed() && chunk.Valid() && Mergeable(data, chunk.chunkCounter, true)
      requires chunk.chunkCounter == Shl(n, k) && Pow2(k) == 1
      requires 1024 * chunk.chunkCounter + 1024 <= |data| < INPUT_LIMIT
      requires input == data[1024 * chunk.chunkCounter..1024 * (chunk.chunkCounter + 1)]
      modifies this`cvStackLen, cvStack
      ensures Fixed() && chunk.Valid()
      ensures Mergeable(data, chunk.chunkCounter + 1, true)
    {
      hide Roots, Shl, Pow2, PopCount, Mergeable, Lazy;
      var cv := HashChunk(Mode(f, key, chunk.flags), chunk.chunkCounter, input);
      assert cv == Sub(alg, data, chunk.chunkCounter, 1);
      PushSub(cv, chunk.chunkCounter, n, k, data);
    }

    method PushPair(input: Bytes, ghost n: nat, ghost k: nat, ghost data: Bytes)
      requires Fixed() && chunk.Valid() && Mergeable(data, chunk.chunkCounter, true)
      requires chunk.chunkCounter == Shl(n, k) && |input| == 1024 * Pow2(k) > 1024
      requires 1024 * chunk.chunkCounter + |input| <= |data| < INPUT_LIMIT
      requires input == data[1024 * chunk.chunkCounter..1024 * (chunk.chunkCounter + Pow2(k))]
      modifies this`cvStackLen, cvStack
      ensures Fixed() && chunk.Valid()
      ensures Mergeable(data, chunk.chunkCounter + Pow2(k), false)
    {
      hide Roots, Tree, Sub, Realizes, Shl, Pow2, PopCount, LeftChunks, TreePair, Mergeable, Lazy;
      HalfOf(k);
      ghost var c, g := chunk.chunkCounter, Pow2(k - 1);
      var half := |input| / 1024 / 2;
      var left, right := CompressSubtreeToParentNode(p, Mode(f, key, chunk.flags), input, chunk.chunkCounter, alg);
      SubJoin(alg, data, c, k - 1, g);
      HalfCounters(n, k);
      PushSub(left, chunk.chunkCounter, 2 * n, k - 1, data);
      PushSub(right, chunk.chunkCounter + half, 2 * n + 1, k - 1, data);
    }

    /** blake3_hasher_update. */
    method Update(input: Bytes)
      requires Valid() && |absorbed| + |input| < INPUT_LIMIT
      modifies this, chunk, chunk.buf, cvStack
      ensures Valid() && absorbed == old(absorbed) + input
    {
      hide Roots, Tree, Realizes, PopCount, ChunkNode, Mergeable, Lazy, ChunkState.Valid;
      if |input| == 0 {
        assert absorbed + input == absorbed;
        return;
      }
      ghost var data := absorbed + input;
      var rest := input;
      Extend(data);
      var chunkLen := chunk.Len();
      if chunkLen > 0 {
        rest := FinishChunk(rest, data);
        if |rest| == 0 {
          absorbed := data;
          return;
        }
      }
      UpdateRest(rest, data);
      absorbed := data;
    }

    /** The update loop and the bytes left over: whole subtrees first, then the chunk in progress. */
    method UpdateRest(input: Bytes, ghost data: Bytes)
      requires Between(data, input) && input != []
      modifies this`cvStackLen, cvStack, chunk, chunk.buf
      ensures Fixed() && chunk.Valid()
      ensures |data| == 1024 * chunk.chunkCounter + |chunk.fed|
      ensures chunk.fed == data[1024 * chunk.chunkCounter..]
      ensures if chunk.fed == [] then Mergeable(data, chunk.chunkCounter, false)
              else Stack() == Roots(alg, data, chunk.chunkCounter, 0)
    {
      hide Roots, Realizes, PopCount, Lazy;
      var rest := input;
      while |rest| > 1024
        invariant Between(data, rest)
      {
        rest := PushSubtree(rest, data);
      }
      if |rest| > 0 {
        chunk.Update(rest);
        assert chunk.fed == rest;
        MergeCvStack(chunk.chunkCounter, data);
      }
    }

    /** blake3_hasher_reset: ready for another input under the same key and flags. */
    method Reset()
      requires Valid()
      modifies this, chunk, chunk.buf
      ensures Valid() && absorbed == []
    {
      chunk.Reset(key, 0);
      cvStackLen := 0;
      absorbed := [];
    }

    /** What the stack says about the input so far it says about every longer input. */
    lemma Extend(data: Bytes)
      requires Valid() && absorbed <= data && |data| < INPUT_LIMIT
      ensures chunk.fed != [] ==> Stack() == Roots(alg, data, chunk.chunkCounter, 0)
      ensures chunk.fed == [] ==> Mergeable(data, chunk.chunkCounter, true)
    {
      hide Roots, Tree, Sub, Realizes, PopCount;
      var c := chunk.chunkCounter;
      RootsPrefix(alg, absorbed, data, c, 0);
      if chunk.fed == [] && Stack() != Roots(alg, absorbed, c, 0) {
        var m: nat, k: nat :| m > 0 && Lazy(alg, absorbed, c, Stack(), m, k);
        RootsPrefix(alg, absorbed, data, m, k);
        SubPrefix(alg, absorbed, data, Shl(m, k), Pow2(k));
        assert Lazy(alg, data, c, Stack(), m, k);
      }
    }

    /** The first step of an update: complete the chunk in progress, and push it when more follows. */
    method FinishChunk(input: Bytes, ghost data: Bytes) returns (rest: Bytes)
      requires Fixed() && chunk.Valid() && chunk.fed != [] && input != []
      requires 1024 * chunk.chunkCounter + |chunk.fed| + |input| == |data| < INPUT_LIMIT
      requires chunk.fed + input == data[1024 * chunk.chunkCounter..]
      requires Stack() == Roots(alg, data, chunk.chunkCounter, 0)
      modifies this`cvStackLen, cvStack, chunk, chunk.buf
      ensures rest != [] ==> Between(data, rest)
      ensures Fixed() && chunk.Valid() && 1024 * chunk.chunkCounter <= |data|
      ensures rest == [] ==> chunk.fed == data[1024 * chunk.chunkCounter..] != []
      ensures rest == [] ==> Stack() == Roots(alg, data, chunk.chunkCounter, 0)
    {
      hide Roots, PopCount, Realizes, Mergeable, Lazy, Sub, ChunkNode, Chain;
      var chunkLen := chunk.Len();
      var take := 1024 - chunkLen;
      if take > |input| {
        take := |input|;
      }
      chunk.Update(input[..take]);
      rest := input[take..];
      assert input == input[..take] + rest;
      assert chunk.fed + rest == data[1024 * chunk.chunkCounter..];
      if |rest| > 0 {
        PushChunk(rest, data);
      }
    }

    /** The chunk in progress is complete and more follows: its value is pushed and the next chunk begun. */
    method PushChunk(ghost rest: Bytes, ghost data: Bytes)
      requires Fixed() && chunk.Valid() && |chunk.fed| == 1024 && rest != []
      requires 1024 * (chunk.chunkCounter + 1) + |rest| == |data| < INPUT_LIMIT
      requires chunk.fed + rest == data[1024 * chunk.chunkCounter..]
      requires Stack() == Roots(alg, data, chunk.chunkCounter, 0)
      modifies this`cvStackLen, cvStack, chunk, chunk.buf
      ensures Between(data, rest)
    {
      hide Roots, PopCount, Realizes, Mergeable, Lazy, Sub, ChunkNode, Chain;
      ghost var c := chunk.chunkCounter;
      ChunkThenRest(data, 1024 * c, chunk.fed, rest);
      var output := chunk.Output();
      var cv := OutputChainingValue(f, output);
      IsSub(data, c, cv);
      RootsAreMergeable(data, c);
      PushSub(cv, chunk.chunkCounter, c, 0, data);
      chunk.Reset(key, chunk.chunkCounter + 1);
    }

    lemma IsSub(data: Bytes, c: nat, cv: CvBytes)
      requires Fixed() && 1024 * (c + 1) <= |data|
      requires cv == Chain(f, ChunkNode(mode, c, data[1024 * c..1024 * (c + 1)]))
      ensures cv == Sub(alg, data, c, 1)
    {
    }

    /** blake3_hasher_finalize_seek: out.Length bytes of the root output stream from position seek on. */
    method FinalizeSeek(seek: nat, out: array<Byte>)
      requires Valid() && out != chunk.buf
      modifies out
      ensures out[..] == RootBytes(f, Tree(alg, 0, absorbed), seek, out.Length)
    {
      hide Roots, Tree, RollUp, ChunkNode, ParentNode, Chain, PopCount, RootByte, Mergeable, Lazy, ChunkState.Valid;
      if out.Length == 0 {
        return;
      }
      var node: Node;
      if cvStackLen == 0 {
        node := chunk.Output();
        EmptyStack();
        OutputRootBytes(f, node, seek, out);
        return;
      }
      var cvsRemaining: nat;
      var chunkLen := chunk.Len();
      if chunkLen > 0 {
        cvsRemaining := cvStackLen;
        node := chunk.Output();
        TopIsChunk(node);
        assert Stack()[..cvsRemaining] == Stack();
      } else {
        AtLeastTwo();
        cvsRemaining := cvStackLen - 2;
        node := ParentOutput(Mode(f, key, chunk.flags), cvStack[cvsRemaining], cvStack[cvsRemaining + 1]);
        assert Stack()[..cvsRemaining] == Stack()[..cvStackLen - 2];
      }
      while cvsRemaining > 0
        invariant cvsRemaining <= cvStackLen
        invariant RollUp(alg, Stack()[..cvsRemaining], node) == Tree(alg, 0, absorbed)
      {
        cvsRemaining := cvsRemaining - 1;
        var cv := OutputChainingValue(f, node);
        TakeOneMore(Stack(), cvsRemaining);
        RollUpPush(alg, Stack()[..cvsRemaining], cvStack[cvsRemaining], node);
        node := ParentOutput(Mode(f, key, chunk.flags), cvStack[cvsRemaining], cv);
      }
      RollUpNone(alg, node);
      assert Stack()[..0] == [];
      OutputRootBytes(f, node, seek, out);
    }

    lemma EmptyStack()
      requires Valid() && cvStackLen == 0
      ensures ChunkNode(mode, chunk.chunkCounter, chunk.fed) == Tree(alg, 0, absorbed)
    {
      hide Roots;
      if chunk.chunkCounter > 0 {
        PopCountPositive(chunk.chunkCounter);
      }
      assert absorbed[0..] == absorbed;
    }

    lemma TopIsChunk(node: Node)
      requires Valid() && chunk.fed != [] && node == ChunkNode(mode, chunk.chunkCounter, chunk.fed)
      ensures RollUp(alg, Stack(), node) == Tree(alg, 0, absorbed)
    {
      hide Roots, RollUp;
      RollUpRoots(alg, absorbed, chunk.chunkCounter, 0);
    }

    /** There are always at least two entries when no chunk bytes are held, and rolling up from
        the top two gives the root. */
    lemma AtLeastTwo()
      requires Valid() && chunk.fed == [] && cvStackLen > 0
      ensures cvStackLen >= 2
      ensures RollUp(alg, Stack()[..cvStackLen - 2], alg.parent(Stack()[cvStackLen - 2], Stack()[cvStackLen - 1]))
           == Tree(alg, 0, absorbed)
    {
      hide Roots, RollUp, Tree, Realizes;
      var m: nat, k: nat :| m > 0 && Lazy(alg, absorbed, chunk.chunkCounter, Stack(), m, k);
      RollUpLazy(alg, absorbed, chunk.chunkCounter, Stack(), m, k);
    }
  }

  lemma ChunkThenRest(data: Bytes, at: nat, fed: Bytes, rest: Bytes)
    requires at <= |data| && fed + rest == data[at..]
    ensures at + |fed| <= |data| && fed == data[at..at + |fed|] && rest == data[at + |fed|..]
  {
    assert fed == (fed + rest)[..|fed|] && rest == (fed + rest)[|fed|..];
  }

  lemma WholeChunks(s: nat)
    ensures 1024 * s / 1024 == s
  {
  }

  lemma SubtreeThenRest(data: Bytes, rest: Bytes, at: nat, n: nat)
    requires at <= |data| && rest == data[at..] && n <= |rest|
    ensures rest[..n] == data[at..at + n] && rest[n..] == data[at + n..]
  {
  }

  lemma HalfOf(k: nat)
    requires Pow2(k) > 1
    ensures k > 0 && Pow2(k) == 2 * Pow2(k - 1) && 1024 * Pow2(k) / 1024 / 2 == Pow2(k - 1)
  {
  }

  /** The positions of the two halves, in units of their size. */
  lemma HalfCounters(n: nat, k: nat)
    requires k > 0
    ensures Shl(2 * n, k - 1) == Shl(n, k) && Shl(2 * n + 1, k - 1) == Shl(n, k) + Pow2(k - 1)
  {
    ShlDouble(n, k - 1);
    ShlAdd(2 * n, 1, k - 1);
    ShlOne(0, k - 1);
  }

  lemma TakeOneMore<T>(s: seq<T>, n: nat)
    requires n < |s|
    ensures s[..n + 1] == s[..n] + [s[n]]
  {
  }

  lemma RollUpNone(alg: Alg<Node, CvBytes>, top: Node)
    ensures RollUp(alg, [], top) == top
  {
  }

  /** One block of root output (blake3_compress_xof with the root flag). */
  method XofBlock(f: Compressor, n: Node, counter: nat) returns (block: Block)
    ensures block == RootBytes(f, n, 64 * counter, 64)
  {
    block := f.xof(n.inputCv, n.block, n.blockLen, counter, n.flags + {Root});
    forall j | 0 <= j < 64 ensures block[j] == RootByte(f, n, 64 * counter + j) {
      assert (64 * counter + j) / 64 == counter && (64 * counter + j) % 64 == j;
    }
  }

  /** memcpy of bytes to the places from at on. */
  method CopyBytes(src: Bytes, out: array<Byte>, at: nat)
    requires at + |src| <= out.Length
    modifies out
    ensures out[..at + |src|] == old(out[..at]) + src
  {
    forall i | 0 <= i < |src| {
      out[at + i] := src[i];
    }
    assert out[..at] == old(out[..at]);
    assert out[at..at + |src|] == src;
    assert out[..at + |src|] == out[..at] + out[at..at + |src|];
  }

  /** blake3_xof_many: consecutive whole output blocks from position at of out on. */
  method XofMany(f: Compressor, n: Node, counter: nat, out: array<Byte>, at: nat, outBlocks: nat)
    requires at + 64 * outBlocks <= out.Length
    modifies out
    ensures out[..at + 64 * outBlocks] == old(out[..at]) + RootBytes(f, n, 64 * counter, 64 * outBlocks)
  {
    hide RootBytes;
    var i := 0;
    assert RootBytes(f, n, 64 * counter, 0) == [];
    while i < outBlocks
      invariant i <= outBlocks
      invariant out[..at + 64 * i] == old(out[..at]) + RootBytes(f, n, 64 * counter, 64 * i)
    {
      var block := XofBlock(f, n, counter + i);
      CopyBytes(block, out, at + 64 * i);
      RootBytesAdjacent(f, n, 64 * counter, 64 * i, 64);
      assert 64 * (counter + i) == 64 * counter + 64 * i;
      i := i + 1;
    }
  }

  /** The rest of the block that seek points into, or nothing if seek is at a block boundary. */
  method FirstPartialBlock(f: Compressor, n: Node, seek: nat, out: array<Byte>) returns (counter: nat, done: nat)
    requires out.Length > 0
    modifies out
    ensures done <= out.Length && out[..done] == RootBytes(f, n, seek, done)
    ensures done < out.Length ==> 64 * counter == seek + done
  {
    hide RootBytes;
    counter := seek / 64;
    var offset := seek % 64;
    done := 0;
    NoRootBytes(f, n, seek);
    if offset != 0 {
      var wide := XofBlock(f, n, counter);
      var available := 64 - offset;
      done := if out.Length > available then available else out.Length;
      RootBytesSlice(f, n, 64 * counter, 64, offset, offset + done);
      CopyBytes(wide[offset..offset + done], out, 0);
      counter := counter + 1;
    }
  }

  lemma NoRootBytes(f: Compressor, n: Node, seek: nat)
    ensures RootBytes(f, n, seek, 0) == []
  {
  }

  /** output_root_bytes: a partial first block, whole blocks, a partial last block. */
  method OutputRootBytes(f: Compressor, n: Node, seek: nat, out: array<Byte>)
    modifies out
    ensures out[..] == RootBytes(f, n, seek, out.Length)
  {
    hide RootBytes;
    if out.Length == 0 {
      return;
    }
    var counter, done := FirstPartialBlock(f, n, seek, out);
    assert out[..done] == RootBytes(f, n, seek, done);
    var left := out.Length - done;
    assert left > 0 ==> 64 * counter == seek + done;
    XofMany(f, n, counter, out, done, left / 64);
    RootBytesAdjacent(f, n, seek, done, 64 * (left / 64));
    assert left == 0 ==> RootBytes(f, n, 64 * counter, 0) == [];
    counter := counter + left / 64;
    done := done + left / 64 * 64;
    left := left % 64;
    assert out[..done] == RootBytes(f, n, seek, done);
    if left != 0 {
      var wide := XofBlock(f, n, counter);
      RootBytesSlice(f, n, 64 * counter, 64, 0, left);
      CopyBytes(wide[..left], out, done);
      RootBytesAdjacent(f, n, seek, done, left);
    }
    assert out[..] == out[..out.Length];
  }

  // ----- Whole runs.

  /** Hashing the pieces of an input with one update call each gives the hash of the whole input,
      for every mode, platform and way of cutting. */
  method HashPieces(p: Platform, m: Mode, pieces: seq<Bytes>, seek: nat, len: nat) returns (digest: Bytes)
    requires p.Valid() && |Concat(pieces)| < INPUT_LIMIT
    ensures digest == Hash(m, Concat(pieces), seek, len)
  {
    hide Tree, RootBytes;
    var hasher := new Hasher(p, m);
    var i := 0;
    while i < |pieces|
      invariant i <= |pieces|
      invariant hasher.Valid() && hasher.absorbed == Concat(pieces[..i])
      invariant fresh(hasher) && fresh(hasher.chunk) && fresh(hasher.chunk.buf) && fresh(hasher.cvStack)
    {
      assert pieces[..i + 1][..i] == pieces[..i];
      ConcatPrefix(pieces, i + 1);
      hasher.Update(pieces[i]);
      i := i + 1;
    }
    assert pieces[..i] == pieces;
    var out := new Byte[len];
    hasher.FinalizeSeek(seek, out);
    digest := out[..];
  }

  /** blake3_hasher_init_derive_key_raw followed by hashing the key material (section 2.3 of the paper):
      the context is hashed first, and its 32-byte hash is the key for the material. */
  method DeriveKey(p: Platform, f: Compressor, context: Bytes, material: seq<Bytes>, seek: nat, len: nat)
    returns (digest: Bytes)
    requires p.Valid() && |context| < INPUT_LIMIT && |Concat(material)| < INPUT_LIMIT
    ensures digest == Hash(Mode(f, f.load(Hash(Mode(f, IV, {DeriveKeyContext}), context, 0, 32)), {DeriveKeyMaterial}),
                           Concat(material), seek, len)
  {
    hide Tree;
    assert Concat([context]) == context;
    var contextKey := HashPieces(p, Mode(f, IV, {DeriveKeyContext}), [context], 0, 32);
    digest := HashPieces(p, Mode(f, f.load(contextKey), {DeriveKeyMaterial}), material, seek, len);
  }
}
