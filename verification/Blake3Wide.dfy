/** The wide subtree functions: many chunks or parents at a time, in arrays of chaining values. */
module Blake3Wide {
  import opened Bits
  import opened MerkleTree
  import opened Octets
  import opened Blake3Spec
  import opened Blake3Chunk

  /** The SIMD degree found at run time, and the largest one compiled in, which sizes the arrays. */
  datatype Platform = Platform(degree: nat, maxDegree: nat) {
    ghost predicate Valid() {
      && (exists k: nat :: degree == Pow2(k)) && degree <= maxDegree
      && (maxDegree > 1 ==> maxDegree % 2 == 0)
    }

    /** MAX_SIMD_DEGREE_OR_2. */
    function MaxOr2(): nat {
      if maxDegree > 2 then maxDegree else 2
    }

    /** How many chaining values a wide call returns at most. */
    function Width(): nat {
      if degree > 2 then degree else 2
    }
  }

  // ----- blake3_hash_many.

  /** The flags hash_one gives to block i of n. */
  function BlockFlags(flags: Flags, start: Flags, end: Flags, i: nat, n: nat): Flags {
    var first := if i == 0 then flags + start else flags;
    if i + 1 == n then first + end else first
  }

  /** The chaining value of hash_one after i of its n blocks. */
  function HashOneCv(f: Compressor, key: Cv, counter: nat, flags: Flags, start: Flags, end: Flags,
                     input: Bytes, i: nat, n: nat): Cv
    requires 64 * i <= |input|
  {
    if i == 0 then key
    else f.compress(HashOneCv(f, key, counter, flags, start, end, input, i - 1, n),
                    input[64 * (i - 1)..64 * i], 64, counter,
                    BlockFlags(flags, start, end, i - 1, n))
  }

  lemma HashOneStep(f: Compressor, key: Cv, counter: nat, flags: Flags, start: Flags, end: Flags,
                    input: Bytes, rest: Bytes, i: nat, n: nat)
    requires 64 * (i + 1) <= |input| && rest == input[64 * i..]
    ensures HashOneCv(f, key, counter, flags, start, end, input, i + 1, n)
         == f.compress(HashOneCv(f, key, counter, flags, start, end, input, i, n), rest[..64], 64, counter,
                       BlockFlags(flags, start, end, i, n))
    ensures rest[64..] == input[64 * (i + 1)..]
  {
    assert rest[..64] == input[64 * i..64 * (i + 1)];
  }

  /** hash_one_portable. */
  method HashOne(f: Compressor, input: Bytes, blocks: nat, key: Cv, counter: nat,
                 flags: Flags, start: Flags, end: Flags) returns (out: CvBytes)
    requires |input| == 64 * blocks
    ensures out == f.store(HashOneCv(f, key, counter, flags, start, end, input, blocks, blocks))
  {
    var cv := key;
    var blockFlags := flags + start;
    var left, rest := blocks, input;
    ghost var i: nat := 0;
    while left > 0
      invariant i + left == blocks && 64 * i <= |input| && rest == input[64 * i..]
      invariant blockFlags == if i == 0 then flags + start else flags
      invariant cv == HashOneCv(f, key, counter, flags, start, end, input, i, blocks)
    {
      if left == 1 {
        blockFlags := blockFlags + end;
      }
      cv := f.compress(cv, rest[..64], 64, counter, blockFlags);
      HashOneStep(f, key, counter, flags, start, end, input, rest, i, blocks);
      rest := rest[64..];
      i := i + 1;
      left := left - 1;
      blockFlags := flags;
    }
    out := f.store(cv);
  }

  /** What hash_many writes for input i. */
  function HashManyAt(f: Compressor, input: Bytes, blocks: nat, key: Cv, counter: nat, increment: bool,
                      flags: Flags, start: Flags, end: Flags, i: nat): CvBytes
    requires |input| == 64 * blocks
  {
    f.store(HashOneCv(f, key, if increment then counter + i else counter, flags, start, end, input, blocks, blocks))
  }

  /** blake3_hash_many_portable: one chaining value per input, from slot at of out on. */
  method HashMany(f: Compressor, inputs: seq<Bytes>, blocks: nat, key: Cv, counter: nat, increment: bool,
                  flags: Flags, start: Flags, end: Flags, out: array<CvBytes>, at: nat)
    requires forall i | 0 <= i < |inputs| :: |inputs[i]| == 64 * blocks
    requires at + |inputs| <= out.Length
    modifies out
    ensures forall i | 0 <= i < |inputs| ::
      out[at + i] == HashManyAt(f, inputs[i], blocks, key, counter, increment, flags, start, end, i)
    ensures out[..at] == old(out[..at]) && out[at + |inputs|..] == old(out[at + |inputs|..])
  {
    var n := 0;
    var c := counter;
    while n < |inputs|
      invariant n <= |inputs|
      invariant c == if increment then counter + n else counter
      invariant forall i | 0 <= i < n ::
        out[at + i] == HashManyAt(f, inputs[i], blocks, key, counter, increment, flags, start, end, i)
      invariant out[..at] == old(out[..at]) && out[at + |inputs|..] == old(out[at + |inputs|..])
    {
      var cv := HashOne(f, inputs[n], blocks, key, c, flags, start, end);
      out[at + n] := cv;
      if increment {
        c := c + 1;
      }
      n := n + 1;
    }
  }

  lemma {:induction false} HashOneIsCvAfter(m: Mode, counter: nat, chunk: Bytes, i: nat)
    requires |chunk| == 1024 && i < 16
    ensures HashOneCv(m.f, m.key, counter, m.flags, {ChunkStart}, {ChunkEnd}, chunk, i, 16)
         == CvAfter(m, counter, chunk, i)
  {
    if i > 0 {
      HashOneIsCvAfter(m, counter, chunk, i - 1);
      assert m.flags + {} == m.flags;
    }
  }

  /** The full-chunk path of hash_many gives the chaining value of the chunk. */
  lemma HashOneChunk(m: Mode, counter: nat, chunk: Bytes)
    requires |chunk| == 1024
    ensures m.f.store(HashOneCv(m.f, m.key, counter, m.flags, {ChunkStart}, {ChunkEnd}, chunk, 16, 16))
         == Chain(m.f, ChunkNode(m, counter, chunk))
  {
    HashOneIsCvAfter(m, counter, chunk, 15);
    LastBlockAfter(m, counter, chunk, 15);
    assert m.flags + {} == m.flags;
    assert Pad(chunk[960..]) == chunk[960..1024];
  }

  /** The one-block path of hash_many gives the chaining value of the parent. */
  lemma HashOneParent(m: Mode, a: CvBytes, b: CvBytes)
    ensures m.f.store(HashOneCv(m.f, m.key, 0, m.flags + {Parent}, {}, {}, Join(a, b), 1, 1))
         == Chain(m.f, ParentNode(m, a, b))
  {
    assert Join(a, b)[0..64] == Join(a, b);
    assert HashOneCv(m.f, m.key, 0, m.flags + {Parent}, {}, {}, Join(a, b), 0, 1) == m.key;
    assert m.flags + {Parent} + {} + {} == m.flags + {Parent};
  }

  // ----- The compress_* functions. Every call writes the slots [at, at + n) of out only.

  /** The pointers of compress_chunks_parallel: the full chunks of the input. */
  method FullChunks(input: Bytes) returns (chunks: seq<Bytes>)
    ensures 1024 * |chunks| <= |input| < 1024 * (|chunks| + 1)
    ensures forall i | 0 <= i < |chunks| :: chunks[i] == input[1024 * i..1024 * (i + 1)]
  {
    chunks := [];
    var position := 0;
    while |input| - position >= 1024
      invariant position == 1024 * |chunks| <= |input|
      invariant forall i | 0 <= i < |chunks| :: chunks[i] == input[1024 * i..1024 * (i + 1)]
    {
      chunks := chunks + [input[position..position + 1024]];
      position := position + 1024;
    }
  }

  /** The first step of compress_chunks_parallel: the full chunks, by hash_many. */
  method CompressFullChunks(p: Platform, m: Mode, input: Bytes, chunkCounter: nat,
                            out: array<CvBytes>, at: nat, ghost alg: Alg<Node, CvBytes>) returns (n: nat)
    requires Realizes(alg, m)
    requires 0 < |input| <= 1024 * p.maxDegree
    requires at + ChunkCount(|input|) <= out.Length
    modifies out
    ensures 1024 * n <= |input| < 1024 * (n + 1) && n <= ChunkCount(|input|)
    ensures out[at..at + n] == ChunkCvs(alg, chunkCounter, input)[..n]
    ensures out[..at] == old(out[..at]) && out[at + n..] == old(out[at + n..])
  {
    hide ChunkNode, Chain, HashOneCv, ChunkCvs, ChunkCount, ChunkAt;
    var chunks := FullChunks(input);
    n := |chunks|;
    ChunkCountIs(|input|, n);
    assert n <= p.maxDegree;
    HashMany(m.f, chunks, 16, m.key, chunkCounter, true, m.flags, {ChunkStart}, {ChunkEnd}, out, at);
    ghost var cvs := ChunkCvs(alg, chunkCounter, input);
    forall i | 0 <= i < n ensures out[at + i] == cvs[i] {
      ChunkAtIs(input, i);
      HashOneChunk(m, chunkCounter + i, chunks[i]);
    }
  }

  /** compress_chunks_parallel: the chaining values of all chunks of the input. */
  method CompressChunksParallel(p: Platform, m: Mode, input: Bytes, chunkCounter: nat,
                                out: array<CvBytes>, at: nat, ghost alg: Alg<Node, CvBytes>) returns (n: nat)
    requires Realizes(alg, m)
    requires 0 < |input| <= 1024 * p.maxDegree
    requires at + ChunkCount(|input|) <= out.Length
    modifies out
    ensures n == ChunkCount(|input|)
    ensures out[at..at + n] == ChunkCvs(alg, chunkCounter, input)
    ensures out[..at] == old(out[..at]) && out[at + n..] == old(out[at + n..])
  {
    hide ChunkNode, Chain, ChunkCvs, ChunkCount, ChunkAt;
    n := CompressFullChunks(p, m, input, chunkCounter, out, at, alg);
    ChunkCountIs(|input|, n);
    ghost var cvs := ChunkCvs(alg, chunkCounter, input);
    if |input| > 1024 * n {
      var cv := HashChunk(m, chunkCounter + n, input[1024 * n..]);
      ChunkAtIs(input, n);
      out[at + n] := cv;
      SliceSnoc(out[..], at, n);
      AllButLast(cvs, n);
      n := n + 1;
    } else {
      TakeAll(cvs);
    }
  }

  lemma SliceSnoc<T>(s: seq<T>, at: nat, n: nat)
    requires at + n < |s|
    ensures s[at..at + n + 1] == s[at..at + n] + [s[at + n]]
  {
  }

  lemma AllButLast<T>(s: seq<T>, n: nat)
    requires |s| == n + 1
    ensures s[..n] + [s[n]] == s
  {
  }

  lemma TakeAll<T>(s: seq<T>)
    ensures s[..|s|] == s
  {
  }

  lemma ChunkCountIs(len: nat, n: nat)
    requires 1024 * n <= len < 1024 * (n + 1)
    ensures ChunkCount(len) == if len > 1024 * n then n + 1 else n
  {
  }

  lemma ChunkAtIs(input: Bytes, i: nat)
    requires 1024 * i < |input|
    ensures i < ChunkCount(|input|)
    ensures ChunkAt(input, i)
         == if 1024 * (i + 1) <= |input| then input[1024 * i..1024 * (i + 1)] else input[1024 * i..]
  {
  }

  /** The pointers of compress_parents_parallel: the pairs of values. */
  method Pairs(cvs: array<CvBytes>, num: nat) returns (parents: seq<Bytes>)
    requires num <= cvs.Length
    ensures 2 * |parents| <= num < 2 * (|parents| + 1)
    ensures forall i | 0 <= i < |parents| :: parents[i] == Join(cvs[2 * i], cvs[2 * i + 1])
  {
    parents := [];
    while num - 2 * |parents| >= 2
      invariant 2 * |parents| <= num
      invariant forall i | 0 <= i < |parents| :: parents[i] == Join(cvs[2 * i], cvs[2 * i + 1])
    {
      parents := parents + [Join(cvs[2 * |parents|], cvs[2 * |parents| + 1])];
    }
  }

  /** compress_parents_parallel: one level of parents over the first num values of cvs. */
  method CompressParentsParallel(p: Platform, m: Mode, cvs: array<CvBytes>, num: nat,
                                 out: array<CvBytes>, at: nat, ghost alg: Alg<Node, CvBytes>) returns (n: nat)
    requires Realizes(alg, m)
    requires 2 <= num <= 2 * p.MaxOr2() && num <= cvs.Length
    requires cvs != out && at + (num + 1) / 2 <= out.Length
    modifies out
    ensures n == (num + 1) / 2
    ensures out[at..at + n] == PairUp(alg, cvs[..num])
    ensures out[..at] == old(out[..at]) && out[at + n..] == old(out[at + n..])
  {
    hide ParentNode, Chain, HashOneCv, PairUp, Join;
    var parents := Pairs(cvs, num);
    assert |parents| <= p.MaxOr2();
    HashMany(m.f, parents, 1, m.key, 0, false, m.flags + {Parent}, {}, {}, out, at);
    n := |parents|;
    forall i | 0 <= i < n ensures out[at + i] == PairUp(alg, cvs[..num])[i] {
      HashOneParent(m, cvs[2 * i], cvs[2 * i + 1]);
      PairUpAt(alg, cvs[..num], i);
    }
    if num > 2 * n {
      PairUpAt(alg, cvs[..num], n);
      out[at + n] := cvs[2 * n];
      n := n + 1;
    }
  }

  /** How many values a wide call returns. */
  function WideCount(p: Platform, len: nat): (n: nat)
    requires len > 0
    decreases len
  {
    if len <= 1024 * p.degree || p.degree == 0 then ChunkCount(len)
    else
      var left := 1024 * LeftChunks(len);
      var l, r := WideCount(p, left), WideCount(p, len - left);
      OneLevelUp(l, r)
  }

  /** How many values are left of those of two halves: all if there is one of each, else half of them. */
  function OneLevelUp(l: nat, r: nat): (n: nat)
    ensures l > 0 && r > 0 ==> n > 0
  {
    if l == 1 then l + r else (l + r + 1) / 2
  }

  function LevelUp(alg: Alg<Node, CvBytes>, l: nat, r: nat, both: seq<CvBytes>): (cvs: seq<CvBytes>)
    requires |both| == l + r
    ensures |cvs| == OneLevelUp(l, r)
  {
    if l == 1 then both else PairUp(alg, both)
  }

  lemma WideCountStep(p: Platform, len: nat, h: nat)
    requires p.Valid() && len > 1024 && len > 1024 * p.degree && h == LeftChunks(len)
    ensures WideCount(p, len) == OneLevelUp(WideCount(p, 1024 * h), WideCount(p, len - 1024 * h))
  {
    hide LeftChunks, OneLevelUp, ChunkCount;
  }

  lemma WideCountBase(p: Platform, len: nat)
    requires 0 < len <= 1024 * p.degree
    ensures WideCount(p, len) == ChunkCount(len)
  {
  }

  /** The values a wide call returns. */
  function WideCvs(p: Platform, alg: Alg<Node, CvBytes>, counter: nat, input: Bytes): (cvs: seq<CvBytes>)
    requires |input| > 0
    ensures |cvs| == WideCount(p, |input|)
    decreases |input|
  {
    if |input| <= 1024 * p.degree || p.degree == 0 then ChunkCvs(alg, counter, input)
    else
      var h := LeftChunks(|input|);
      var both := WideCvs(p, alg, counter, input[..1024 * h]) + WideCvs(p, alg, counter + h, input[1024 * h..]);
      LevelUp(alg, WideCount(p, 1024 * h), WideCount(p, |input| - 1024 * h), both)
  }

  /** Half of a subtree wider than the degree is at least as wide as the degree. */
  lemma LeftAtLeastDegree(p: Platform, len: nat) returns (k: nat, d: nat)
    requires p.Valid() && len > 1024 && len > 1024 * p.degree
    ensures LeftChunks(len) == Pow2(k) >= Pow2(d) == p.degree
  {
    k := LeftChunksExponent(len);
    d :| p.degree == Pow2(d);
    if Pow2(k) < Pow2(d) {
      Pow2Gap(k, d);
    }
  }

  /** A perfect subtree at least as wide as the platform yields exactly that many values. */
  lemma {:induction false} WideCountFull(p: Platform, k: nat, len: nat)
    requires p.Valid() && len == 1024 * Pow2(k) && Pow2(k) >= p.Width()
    ensures WideCount(p, len) == p.Width()
  {
    hide WideCount, LeftChunks, ChunkCount;
    if len <= 1024 * p.degree {
      WideCountBase(p, len);
      ChunkCountIs(len, Pow2(k));
    } else {
      LeftChunksUnique(len, k - 1);
      var half := 1024 * Pow2(k - 1);
      WideCountStep(p, len, Pow2(k - 1));
      if Pow2(k - 1) >= p.Width() {
        WideCountFull(p, k - 1, half);
      } else if p.degree >= 2 {
        var d: nat :| p.degree == Pow2(d);
        Pow2Gap(k - 1, d);
        assert false;
      } else {
        assert Pow2(k - 1) == 1;
        WideCountBase(p, half);
        ChunkCountIs(half, 1);
      }
    }
  }

  /** Never more values than the platform is wide, and at least two for more than one chunk. */
  lemma {:induction false} WideCountBounds(p: Platform, len: nat)
    requires p.Valid() && len > 0
    ensures 1 <= WideCount(p, len) <= p.Width()
    ensures len > 1024 <==> WideCount(p, len) >= 2
    decreases len
  {
    if len > 1024 && len > 1024 * p.degree {
      WideCountBounds(p, 1024 * LeftChunks(len));
      WideCountBounds(p, len - 1024 * LeftChunks(len));
    }
  }

  /** The width of the left call, which the code uses as the place for the right values. */
  function LocalDegree(p: Platform, left: nat): nat {
    if left > 1024 && p.degree == 1 then 2 else p.degree
  }

  /** The left call fills its share exactly, so the right values land right behind the left ones;
      there are no more of them. */
  lemma LeftFillsDegree(p: Platform, len: nat, left: nat) returns (j: nat)
    requires p.Valid() && len > 1024 && len > 1024 * p.degree && left == 1024 * LeftChunks(len)
    ensures WideCount(p, left) == LocalDegree(p, left) == Pow2(j)
    ensures 1 <= WideCount(p, len - left) <= WideCount(p, left) <= p.Width() <= p.MaxOr2()
  {
    var k, d := LeftAtLeastDegree(p, len);
    WideCountBounds(p, left);
    WideCountBounds(p, len - left);
    if left > 1024 {
      WideCountFull(p, k, left);
      j := if p.degree == 1 then 1 else d;
    } else {
      j := 0;
    }
  }

  /** memcpy of n values to the slots from at on. */
  method Copy(src: array<CvBytes>, n: nat, out: array<CvBytes>, at: nat)
    requires src != out && n <= src.Length && at + n <= out.Length
    modifies out
    ensures out[at..at + n] == src[..n]
    ensures out[..at] == old(out[..at]) && out[at + n..] == old(out[at + n..])
  {
    forall i | 0 <= i < n {
      out[at + i] := src[i];
    }
  }

  /** blake3_compress_subtree_wide: the values of a level of the tree, at most as many as the
      platform hashes at a time but at least two for more than one chunk. */
  method CompressSubtreeWide(p: Platform, m: Mode, input: Bytes, chunkCounter: nat,
                             out: array<CvBytes>, at: nat, ghost alg: Alg<Node, CvBytes>) returns (n: nat)
    requires p.Valid() && Realizes(alg, m)
    requires 0 < |input| < INPUT_LIMIT
    requires at + WideCount(p, |input|) <= out.Length
    modifies out
    ensures n == WideCount(p, |input|)
    ensures out[at..at + n] == WideCvs(p, alg, chunkCounter, input)
    ensures out[..at] == old(out[..at]) && out[at + n..] == old(out[at + n..])
    decreases |input|, 1
  {
    hide WideCvs, WideCount, LeftChunks, LevelUp, OneLevelUp, ChunkCvs, ChunkCount;
    if |input| <= p.degree * 1024 {
      WideChunks(p, alg, chunkCounter, input);
      n := CompressChunksParallel(p, m, input, chunkCounter, out, at, alg);
      return;
    }
    var cvArray := new CvBytes[2 * p.MaxOr2()];
    ghost var h := LeftChunks(|input|);
    WideStep(p, alg, chunkCounter, input, h);
    ghost var j := LeftFillsDegree(p, |input|, 1024 * h);
    var leftN, rightN := CompressHalves(p, m, input, chunkCounter, cvArray, alg, h);
    n := CompressTwoHalves(p, m, cvArray, leftN, rightN, out, at, alg);
  }

  /** The last step of blake3_compress_subtree_wide: one level of parents over the two halves, unless
      they are the two children of the root already. */
  method CompressTwoHalves(p: Platform, m: Mode, cvArray: array<CvBytes>, leftN: nat, rightN: nat,
                           out: array<CvBytes>, at: nat, ghost alg: Alg<Node, CvBytes>) returns (n: nat)
    requires Realizes(alg, m) && cvArray != out
    requires 1 <= rightN <= leftN <= p.MaxOr2() && leftN + rightN <= cvArray.Length
    requires at + OneLevelUp(leftN, rightN) <= out.Length
    modifies out
    ensures n == OneLevelUp(leftN, rightN) && at + n <= out.Length
    ensures out[at..at + n] == LevelUp(alg, leftN, rightN, cvArray[..leftN + rightN])
    ensures out[..at] == old(out[..at]) && out[at + n..] == old(out[at + n..])
  {
    hide PairUp;
    if leftN == 1 {
      Copy(cvArray, 2, out, at);
      n := 2;
    } else {
      n := CompressParentsParallel(p, m, cvArray, leftN + rightN, out, at, alg);
    }
  }

  lemma WideChunks(p: Platform, alg: Alg<Node, CvBytes>, counter: nat, input: Bytes)
    requires p.Valid() && 0 < |input| <= p.degree * 1024
    ensures WideCvs(p, alg, counter, input) == ChunkCvs(alg, counter, input)
    ensures WideCount(p, |input|) == ChunkCount(|input|)
  {
  }

  lemma WideStep(p: Platform, alg: Alg<Node, CvBytes>, counter: nat, input: Bytes, h: nat)
    requires p.Valid() && |input| > 1024 && |input| > 1024 * p.degree && h == LeftChunks(|input|)
    ensures WideCount(p, |input|) == OneLevelUp(WideCount(p, 1024 * h), WideCount(p, |input| - 1024 * h))
    ensures WideCvs(p, alg, counter, input)
         == var both := WideCvs(p, alg, counter, input[..1024 * h]) + WideCvs(p, alg, counter + h, input[1024 * h..]);
            LevelUp(alg, WideCount(p, 1024 * h), WideCount(p, |input| - 1024 * h), both)
  {
    hide LeftChunks, LevelUp, OneLevelUp, ChunkCvs, ChunkCount, WideCount;
    WideCountStep(p, |input|, h);
  }

  /** The values returned for an input have its tree over them, with the same two top children. */
  lemma {:induction false} WideCovers(p: Platform, alg: Alg<Node, CvBytes>, counter: nat, input: Bytes)
    requires p.Valid() && |input| > 0
    ensures Covers(alg, WideCvs(p, alg, counter, input), counter, input)
    decreases |input|
  {
    hide WideCvs, WideCount, LeftChunks, PairUp, ListCv, ListPair, TreePair, TreeCv;
    if |input| <= 1024 * p.degree {
      WideChunks(p, alg, counter, input);
      ChunkCvsTree(alg, counter, input);
    } else {
      var h := LeftChunks(|input|);
      var left, right := input[..1024 * h], input[1024 * h..];
      WideCovers(p, alg, counter, left);
      WideCovers(p, alg, counter + h, right);
      var j := LeftFillsDegree(p, |input|, 1024 * h);
      WideStep(p, alg, counter, input, h);
      CoversJoin(alg, WideCvs(p, alg, counter, left), WideCvs(p, alg, counter + h, right), j, counter, input, h);
    }
  }

  /** The two recursive calls: the values of the right half land right behind those of the left half. */
  method CompressHalves(p: Platform, m: Mode, input: Bytes, chunkCounter: nat, cvArray: array<CvBytes>,
                        ghost alg: Alg<Node, CvBytes>, ghost h: nat) returns (leftN: nat, rightN: nat)
    requires p.Valid() && Realizes(alg, m)
    requires 1024 < |input| < INPUT_LIMIT && h == LeftChunks(|input|)
    requires cvArray.Length == 2 * p.MaxOr2()
    requires WideCount(p, 1024 * h) == LocalDegree(p, 1024 * h) <= p.MaxOr2()
    requires WideCount(p, |input| - 1024 * h) <= p.MaxOr2()
    modifies cvArray
    ensures leftN == WideCount(p, 1024 * h)
    ensures rightN == WideCount(p, |input| - 1024 * h)
    ensures cvArray[..leftN + rightN]
         == WideCvs(p, alg, chunkCounter, input[..1024 * h]) + WideCvs(p, alg, chunkCounter + h, input[1024 * h..])
    decreases |input|, 0
  {
    hide WideCvs, WideCount, LeftChunks;
    var leftLen := LeftSubtreeLen(|input|);
    var degree := p.degree;
    if leftLen > 1024 && degree == 1 {
      degree := 2;
    }
    leftN := CompressSubtreeWide(p, m, input[..leftLen], chunkCounter, cvArray, 0, alg);
    ghost var a := cvArray[..degree];
    rightN := CompressSubtreeWide(p, m, input[leftLen..], chunkCounter + leftLen / 1024, cvArray, degree, alg);
    FrontAndNext(cvArray[..], degree, rightN);
  }

  lemma FrontAndNext<T>(s: seq<T>, d: nat, r: nat)
    requires d + r <= |s|
    ensures s[..d + r] == s[..d] + s[d..d + r]
  {
  }

  /** compress_subtree_to_parent_node: the two children of the top node of an input of more than one chunk. */
  method CompressSubtreeToParentNode(p: Platform, m: Mode, input: Bytes, chunkCounter: nat,
                                     ghost alg: Alg<Node, CvBytes>) returns (left: CvBytes, right: CvBytes)
    requires p.Valid() && Realizes(alg, m)
    requires 1024 < |input| < INPUT_LIMIT
    ensures (left, right) == TreePair(alg, chunkCounter, input)
  {
    hide WideCvs, WideCount, LeftChunks, PairUp, ListCv, ListPair, TreePair, TreeCv;
    var cvArray := new CvBytes[p.MaxOr2()];
    WideCountBounds(p, |input|);
    WideCovers(p, alg, chunkCounter, input);
    var numCvs := CompressSubtreeWide(p, m, input, chunkCounter, cvArray, 0, alg);
    var outArray := new CvBytes[p.MaxOr2() / 2];
    ghost var cvs := cvArray[..numCvs];
    while numCvs > 2
      invariant 2 <= numCvs <= cvArray.Length && cvArray[..numCvs] == cvs
      invariant ListPair(alg, cvs) == TreePair(alg, chunkCounter, input)
    {
      PairUpSameTree(alg, cvs);
      cvs := PairUp(alg, cvs);
      numCvs := CompressParentsParallel(p, m, cvArray, numCvs, outArray, 0, alg);
      Copy(outArray, numCvs, cvArray, 0);
    }
    left, right := cvArray[0], cvArray[1];
    ListTwo(alg, cvs);
  }
}
