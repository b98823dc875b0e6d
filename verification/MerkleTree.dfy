/** The shape of the BLAKE3 tree (sections 2.1 and 2.5 of its paper), for any chunk, parent and
    chaining operation: recursive splitting, level-by-level pairing, and stacks of perfect subtrees. */
module MerkleTree {
  import opened Bits
  import opened Octets

  /** Nodes N are compressions not yet performed, chaining values C are performed ones. */
  datatype Alg<!N, !C> = Alg(leaf: (nat, Bytes) -> N, parent: (C, C) -> N, chain: N -> C)

  /** The number of chunks in the left subtree: the largest power of two that leaves
      at least one byte on the right. */
  function LeftChunks(len: nat): (h: nat)
    requires len > 1024
    ensures 1024 * h < len <= 2048 * h
  {
    if len <= 2048 then 1 else 2 * LeftChunks((len + 1) / 2)
  }

  lemma {:induction false} LeftChunksExponent(len: nat) returns (k: nat)
    requires len > 1024
    ensures LeftChunks(len) == Pow2(k)
  {
    if len <= 2048 {
      k := 0;
    } else {
      k := LeftChunksExponent((len + 1) / 2);
      k := k + 1;
    }
  }

  /** The tree over an input whose first chunk has the given counter. */
  function Tree<N, C>(alg: Alg<N, C>, counter: nat, input: Bytes): N
    decreases |input|
  {
    if |input| <= 1024 then alg.leaf(counter, input)
    else
      var h := LeftChunks(|input|);
      alg.parent(alg.chain(Tree(alg, counter, input[..1024 * h])),
                 alg.chain(Tree(alg, counter + h, input[1024 * h..])))
  }

  /** The chaining value of the tree over an input. */
  function TreeCv<N, C>(alg: Alg<N, C>, counter: nat, input: Bytes): C {
    alg.chain(Tree(alg, counter, input))
  }

  /** The two children of the top node. */
  function TreePair<N, C>(alg: Alg<N, C>, counter: nat, input: Bytes): (C, C)
    requires |input| > 1024
  {
    var h := LeftChunks(|input|);
    (TreeCv(alg, counter, input[..1024 * h]), TreeCv(alg, counter + h, input[1024 * h..]))
  }

  /** Where the tree splits: 2^k full chunks on the left, at most as many bytes on the right. */
  lemma LeftChunksUnique(len: nat, k: nat)
    requires len > 1024 && 1024 * Pow2(k) < len <= 2048 * Pow2(k)
    ensures LeftChunks(len) == Pow2(k)
  {
    var j := LeftChunksExponent(len);
    if Pow2(j) < Pow2(k) {
      Pow2Gap(j, k);
    } else if Pow2(k) < Pow2(j) {
      Pow2Gap(k, j);
    }
  }

  lemma TreeAt<N, C>(alg: Alg<N, C>, counter: nat, input: Bytes, h: nat)
    requires |input| > 1024 && LeftChunks(|input|) == h
    ensures TreePair(alg, counter, input)
         == (TreeCv(alg, counter, input[..1024 * h]), TreeCv(alg, counter + h, input[1024 * h..]))
    ensures Tree(alg, counter, input)
         == alg.parent(TreeCv(alg, counter, input[..1024 * h]), TreeCv(alg, counter + h, input[1024 * h..]))
  {
  }

  /** An input of 2^k chunks followed by at most as many bytes splits there. */
  lemma TreeJoin<N, C>(alg: Alg<N, C>, counter: nat, input: Bytes, a: Bytes, b: Bytes, k: nat, h: nat)
    requires h == Pow2(k) && |a| == 1024 * h && 0 < |b| <= |a| && input == a + b
    ensures TreePair(alg, counter, input) == (TreeCv(alg, counter, a), TreeCv(alg, counter + h, b))
    ensures Tree(alg, counter, input) == alg.parent(TreeCv(alg, counter, a), TreeCv(alg, counter + h, b))
  {
    assert input[..1024 * h] == a && input[1024 * h..] == b;
    LeftChunksUnique(|input|, k);
    TreeAt(alg, counter, input, h);
  }

  // ----- The left-full tree over a list of chaining values.

  /** The chaining value of the left-full tree over a list. */
  function ListCv<N, C>(alg: Alg<N, C>, cvs: seq<C>): C
    requires |cvs| >= 1
  {
    if |cvs| == 1 then cvs[0]
    else
      var l := LargestPow2(|cvs| - 1);
      alg.chain(alg.parent(ListCv(alg, cvs[..l]), ListCv(alg, cvs[l..])))
  }

  /** The two children of its top node. */
  function ListPair<N, C>(alg: Alg<N, C>, cvs: seq<C>): (C, C)
    requires |cvs| >= 2
  {
    var l := LargestPow2(|cvs| - 1);
    (ListCv(alg, cvs[..l]), ListCv(alg, cvs[l..]))
  }

  /** One level of parents, with an odd value carried up. */
  function PairUp<N, C>(alg: Alg<N, C>, cvs: seq<C>): (r: seq<C>)
    ensures |r| == (|cvs| + 1) / 2
  {
    if |cvs| < 2 then cvs
    else [alg.chain(alg.parent(cvs[0], cvs[1]))] + PairUp(alg, cvs[2..])
  }

  lemma {:induction false} PairUpAt<N, C>(alg: Alg<N, C>, cvs: seq<C>, i: nat)
    requires 2 * i < |cvs|
    ensures PairUp(alg, cvs)[i] ==
      if 2 * i + 1 < |cvs| then alg.chain(alg.parent(cvs[2 * i], cvs[2 * i + 1])) else cvs[2 * i]
  {
    if i > 0 {
      PairUpAt(alg, cvs[2..], i - 1);
    }
  }

  lemma {:induction false} PairUpConcat<N, C>(alg: Alg<N, C>, a: seq<C>, b: seq<C>)
    requires |a| % 2 == 0
    ensures PairUp(alg, a + b) == PairUp(alg, a) + PairUp(alg, b)
  {
    hide PairUp;
    if |a| == 0 {
      PairUpNone(alg);
      assert a + b == b && [] + PairUp(alg, b) == PairUp(alg, b);
    } else {
      PairUpConcat(alg, a[2..], b);
      assert (a + b)[2..] == a[2..] + b;
      PairUpCons(alg, a);
      PairUpCons(alg, a + b);
      var pair := [alg.chain(alg.parent(a[0], a[1]))];
      assert pair + PairUp(alg, a[2..]) + PairUp(alg, b) == pair + (PairUp(alg, a[2..]) + PairUp(alg, b));
    }
  }

  lemma PairUpNone<N, C>(alg: Alg<N, C>)
    ensures PairUp(alg, []) == []
  {
  }

  lemma PairUpCons<N, C>(alg: Alg<N, C>, cvs: seq<C>)
    requires |cvs| >= 2
    ensures PairUp(alg, cvs) == [alg.chain(alg.parent(cvs[0], cvs[1]))] + PairUp(alg, cvs[2..])
  {
  }

  lemma ListAt<N, C>(alg: Alg<N, C>, cvs: seq<C>, l: nat)
    requires |cvs| >= 2 && l == LargestPow2(|cvs| - 1)
    ensures ListPair(alg, cvs) == (ListCv(alg, cvs[..l]), ListCv(alg, cvs[l..]))
    ensures ListCv(alg, cvs) == alg.chain(alg.parent(ListCv(alg, cvs[..l]), ListCv(alg, cvs[l..])))
  {
  }

  /** A list of 2^k values followed by at most as many more splits there. */
  lemma ListSplit<N, C>(alg: Alg<N, C>, a: seq<C>, b: seq<C>, k: nat)
    requires |a| == Pow2(k) && 0 < |b| <= |a|
    ensures ListPair(alg, a + b) == (ListCv(alg, a), ListCv(alg, b))
    ensures ListCv(alg, a + b) == alg.chain(alg.parent(ListCv(alg, a), ListCv(alg, b)))
  {
    LargestPow2Unique(|a + b| - 1, k);
    assert (a + b)[..|a|] == a && (a + b)[|a|..] == b;
    ListAt(alg, a + b, |a|);
  }

  lemma ListTwo<N, C>(alg: Alg<N, C>, cvs: seq<C>)
    requires |cvs| == 2
    ensures ListPair(alg, cvs) == (cvs[0], cvs[1])
  {
    ListAt(alg, cvs, 1);
  }

  lemma PairUpFew<N, C>(alg: Alg<N, C>, cvs: seq<C>)
    requires 1 <= |cvs| <= 2
    ensures ListCv(alg, PairUp(alg, cvs)) == ListCv(alg, cvs)
  {
    if |cvs| == 2 {
      ListAt(alg, cvs, 1);
      assert PairUp(alg, cvs[2..]) == [];
    }
  }

  lemma PowerOverTwo(n: nat, k: nat)
    requires n >= 2 && Pow2(k) == LargestPow2(n)
    ensures k > 0 && Pow2(k) == 2 * Pow2(k - 1)
  {
  }

  /** Pairing up level by level builds the same tree as splitting recursively. */
  lemma {:induction false} PairUpSameTree<N, C>(alg: Alg<N, C>, cvs: seq<C>)
    requires |cvs| >= 1
    ensures ListCv(alg, PairUp(alg, cvs)) == ListCv(alg, cvs)
    ensures |cvs| >= 3 ==> ListPair(alg, PairUp(alg, cvs)) == ListPair(alg, cvs)
    decreases |cvs|
  {
    hide LargestPow2, ListPair, ListCv, PairUp, Pow2;
    if |cvs| <= 2 {
      PairUpFew(alg, cvs);
    } else {
      var k := LargestPow2Exponent(|cvs| - 1);
      PowerOverTwo(|cvs| - 1, k);
      var a, b := cvs[..Pow2(k)], cvs[Pow2(k)..];
      PairUpSameTree(alg, a);
      PairUpSameTree(alg, b);
      assert cvs == a + b;
      PairUpConcat(alg, a, b);
      SameHalves(alg, a, b, PairUp(alg, a), PairUp(alg, b), k);
    }
  }

  lemma SameHalves<N, C>(alg: Alg<N, C>, a: seq<C>, b: seq<C>, a': seq<C>, b': seq<C>, k: nat)
    requires k > 0 && |a| == Pow2(k) && 0 < |b| <= |a|
    requires |a'| == Pow2(k - 1) && 0 < |b'| <= |a'|
    requires ListCv(alg, a) == ListCv(alg, a') && ListCv(alg, b) == ListCv(alg, b')
    ensures ListCv(alg, a + b) == ListCv(alg, a' + b')
    ensures ListPair(alg, a + b) == ListPair(alg, a' + b')
  {
    hide ListCv, ListPair;
    ListSplit(alg, a, b, k);
    ListSplit(alg, a', b', k - 1);
  }

  /** Two lists joined, and the same paired up, have the same top children. */
  lemma JoinLists<N, C>(alg: Alg<N, C>, a: seq<C>, b: seq<C>, k: nat, x: C, y: C)
    requires |a| == Pow2(k) && 0 < |b| <= |a| && ListCv(alg, a) == x && ListCv(alg, b) == y
    ensures ListPair(alg, a + b) == (x, y) && ListCv(alg, a + b) == alg.chain(alg.parent(x, y))
    ensures |a| >= 2 ==> ListPair(alg, PairUp(alg, a + b)) == (x, y)
    ensures |a| >= 2 ==> ListCv(alg, PairUp(alg, a + b)) == alg.chain(alg.parent(x, y))
  {
    hide ListCv, ListPair, PairUp;
    ListSplit(alg, a, b, k);
    PairUpSameTree(alg, a + b);
  }

  /** What the values written for an input mean: the tree over them is the tree over the input,
      with the same two top children. */
  ghost predicate Covers<N, C>(alg: Alg<N, C>, cvs: seq<C>, counter: nat, input: Bytes) {
    && |cvs| >= 1 && (|input| > 1024 ==> |cvs| >= 2)
    && ListCv(alg, cvs) == TreeCv(alg, counter, input)
    && (|input| > 1024 ==> ListPair(alg, cvs) == TreePair(alg, counter, input))
  }

  /** Joining what the two halves of an input wrote: paired up, or as they are when there are just two. */
  lemma CoversJoin<N, C>(alg: Alg<N, C>, a: seq<C>, b: seq<C>, k: nat, counter: nat, input: Bytes, h: nat)
    requires |input| > 1024 && h == LeftChunks(|input|) && |a| == Pow2(k) && 0 < |b| <= |a|
    requires ListCv(alg, a) == TreeCv(alg, counter, input[..1024 * h])
    requires ListCv(alg, b) == TreeCv(alg, counter + h, input[1024 * h..])
    ensures Covers(alg, a + b, counter, input)
    ensures |a| >= 2 ==> Covers(alg, PairUp(alg, a + b), counter, input)
  {
    hide ListCv, ListPair, PairUp, LeftChunks, Tree;
    JoinLists(alg, a, b, k, TreeCv(alg, counter, input[..1024 * h]), TreeCv(alg, counter + h, input[1024 * h..]));
    TreeAt(alg, counter, input, h);
  }

  // ----- The list of all chunk chaining values.

  function ChunkCount(len: nat): nat {
    (len + 1023) / 1024
  }

  /** Chunk i of the input. */
  function ChunkAt(input: Bytes, i: nat): (c: Bytes)
    requires i < ChunkCount(|input|)
    ensures 0 < |c| <= 1024
  {
    input[1024 * i..if 1024 * (i + 1) <= |input| then 1024 * (i + 1) else |input|]
  }

  /** The chaining values of all chunks of the input. */
  function ChunkCvs<N, C>(alg: Alg<N, C>, counter: nat, input: Bytes): (r: seq<C>)
    ensures |r| == ChunkCount(|input|)
    ensures forall i | 0 <= i < |r| :: r[i] == alg.chain(alg.leaf(counter + i, ChunkAt(input, i)))
  {
    seq(ChunkCount(|input|), i requires 0 <= i < ChunkCount(|input|) =>
      alg.chain(alg.leaf(counter + i, ChunkAt(input, i))))
  }

  lemma ChunkAtSplit(input: Bytes, a: Bytes, b: Bytes, n: nat, i: nat)
    requires |a| == 1024 * n && input == a + b && i < ChunkCount(|input|)
    ensures i < n ==> ChunkAt(input, i) == ChunkAt(a, i)
    ensures i >= n ==> ChunkAt(input, i) == ChunkAt(b, i - n)
  {
  }

  lemma ChunkCvsSplit<N, C>(alg: Alg<N, C>, counter: nat, input: Bytes, a: Bytes, b: Bytes, n: nat)
    requires |a| == 1024 * n && input == a + b
    ensures ChunkCvs(alg, counter, input) == ChunkCvs(alg, counter, a) + ChunkCvs(alg, counter + n, b)
    ensures |ChunkCvs(alg, counter, a)| == n
  {
    var whole, left, right := ChunkCvs(alg, counter, input), ChunkCvs(alg, counter, a), ChunkCvs(alg, counter + n, b);
    assert |left| == n && |whole| == n + |right|;
    forall i | 0 <= i < |whole| ensures whole[i] == (left + right)[i] {
      ChunkAtSplit(input, a, b, n, i);
      if i >= n {
        assert counter + n + (i - n) == counter + i;
      }
    }
  }

  lemma ChunkCvsOne<N, C>(alg: Alg<N, C>, counter: nat, input: Bytes)
    requires 0 < |input| <= 1024
    ensures ChunkCvs(alg, counter, input) == [TreeCv(alg, counter, input)]
  {
    assert ChunkAt(input, 0) == input;
    assert counter + 0 == counter;
  }

  /** The tree over the chunk chaining values is the tree over the input. */
  lemma {:induction false} ChunkCvsTree<N, C>(alg: Alg<N, C>, counter: nat, input: Bytes)
    requires |input| > 0
    ensures ListCv(alg, ChunkCvs(alg, counter, input)) == TreeCv(alg, counter, input)
    ensures |input| > 1024 ==> ListPair(alg, ChunkCvs(alg, counter, input)) == TreePair(alg, counter, input)
    decreases |input|
  {
    if |input| <= 1024 {
      ChunkCvsOne(alg, counter, input);
    } else {
      var n := LeftChunks(|input|);
      var a, b := input[..1024 * n], input[1024 * n..];
      assert |a| == 1024 * n && 0 < |b| <= |a|;
      ChunkCvsTree(alg, counter, a);
      ChunkCvsTree(alg, counter + n, b);
      ChunkCvsJoin(alg, counter, input, a, b, n);
    }
  }

  lemma ChunkCvsJoin<N, C>(alg: Alg<N, C>, counter: nat, input: Bytes, a: Bytes, b: Bytes, n: nat)
    requires |input| > 1024 && n == LeftChunks(|input|) && a == input[..1024 * n] && b == input[1024 * n..]
    requires ListCv(alg, ChunkCvs(alg, counter, a)) == TreeCv(alg, counter, a)
    requires ListCv(alg, ChunkCvs(alg, counter + n, b)) == TreeCv(alg, counter + n, b)
    ensures ListCv(alg, ChunkCvs(alg, counter, input)) == TreeCv(alg, counter, input)
    ensures ListPair(alg, ChunkCvs(alg, counter, input)) == TreePair(alg, counter, input)
  {
    ChunkCvsSplit(alg, counter, input, a, b, n);
    var k := LeftChunksExponent(|input|);
    ListSplit(alg, ChunkCvs(alg, counter, a), ChunkCvs(alg, counter + n, b), k);
    TreeAt(alg, counter, input, n);
  }

  // ----- Stacks of perfect subtrees.

  /** The chaining value of the subtree over chunks o to o + s of data. */
  function Sub<N, C>(alg: Alg<N, C>, data: Bytes, o: nat, s: nat): C
    requires 1024 * (o + s) <= |data|
  {
    TreeCv(alg, o, data[1024 * o..1024 * (o + s)])
  }

  /** The roots of the perfect subtrees named by the 1-bits of n, in units of 2^k chunks, highest first. */
  function Roots<N, C>(alg: Alg<N, C>, data: Bytes, n: nat, k: nat): (r: seq<C>)
    requires 1024 * Shl(n, k) <= |data|
    ensures |r| == PopCount(n)
    decreases n
  {
    if n == 0 then []
    else
      ShlSplit(n, k);
      if n % 2 == 0 then Roots(alg, data, n / 2, k + 1)
      else Roots(alg, data, n / 2, k + 1) + [Sub(alg, data, Shl(n - 1, k), Pow2(k))]
  }

  lemma ShlSplit(n: nat, k: nat)
    ensures n % 2 == 0 ==> Shl(n, k) == Shl(n / 2, k + 1)
    ensures n % 2 == 1 ==> Shl(n - 1, k) == Shl(n / 2, k + 1) && Shl(n, k) == Shl(n - 1, k) + Pow2(k)
  {
    ShlDouble(n / 2, k);
    ShlOne(0, k);
    if n % 2 == 1 {
      assert n - 1 == 2 * (n / 2);
      ShlAdd(n - 1, 1, k);
    }
  }

  lemma RootsStep<N, C>(alg: Alg<N, C>, data: Bytes, n: nat, k: nat)
    requires 1024 * Shl(n, k) <= |data|
    ensures Shl(n / 2, k + 1) <= Shl(n, k)
    ensures n % 2 == 0 ==> Roots(alg, data, n, k) == Roots(alg, data, n / 2, k + 1)
    ensures n % 2 == 0 ==> Shl(n, k) == Shl(n / 2, k + 1)
    ensures n % 2 == 1 ==> Shl(n, k) == Shl(n / 2, k + 1) + Pow2(k)
    ensures n % 2 == 1 ==>
      Roots(alg, data, n, k) == Roots(alg, data, n / 2, k + 1) + [Sub(alg, data, Shl(n / 2, k + 1), Pow2(k))]
  {
    ShlSplit(n, k);
  }

  lemma SliceJoin(data: Bytes, i: nat, j: nat, k: nat)
    requires i <= j <= k <= |data|
    ensures data[i..k] == data[i..j] + data[j..k]
  {
  }

  /** Two adjacent perfect subtrees of 2^k chunks are the children of the one of 2^(k+1) chunks. */
  lemma SubJoin<N, C>(alg: Alg<N, C>, data: Bytes, o: nat, k: nat, h: nat)
    requires h == Pow2(k) && 1024 * (o + 2 * h) <= |data|
    ensures TreePair(alg, o, data[1024 * o..1024 * (o + 2 * h)]) == (Sub(alg, data, o, h), Sub(alg, data, o + h, h))
    ensures alg.chain(alg.parent(Sub(alg, data, o, h), Sub(alg, data, o + h, h))) == Sub(alg, data, o, 2 * h)
  {
    hide Tree, LeftChunks, Pow2;
    var input := data[1024 * o..1024 * (o + 2 * h)];
    var a, b := data[1024 * o..1024 * (o + h)], data[1024 * (o + h)..1024 * (o + h + h)];
    SliceJoin(data, 1024 * o, 1024 * (o + h), 1024 * (o + h + h));
    TreeJoin(alg, o, input, a, b, k, h);
  }

  /** The roots depend on the bytes they cover only. */
  lemma {:induction false} RootsPrefix<N, C>(alg: Alg<N, C>, a: Bytes, b: Bytes, n: nat, k: nat)
    requires 1024 * Shl(n, k) <= |a| && a <= b
    ensures Roots(alg, a, n, k) == Roots(alg, b, n, k)
    decreases n
  {
    if n > 0 {
      ShlSplit(n, k);
      RootsPrefix(alg, a, b, n / 2, k + 1);
      if n % 2 == 1 {
        SubPrefix(alg, a, b, Shl(n - 1, k), Pow2(k));
      }
    }
  }

  lemma SubPrefix<N, C>(alg: Alg<N, C>, a: Bytes, b: Bytes, o: nat, s: nat)
    requires 1024 * (o + s) <= |a| && a <= b
    ensures Sub(alg, a, o, s) == Sub(alg, b, o, s)
  {
    assert a[1024 * o..1024 * (o + s)] == b[1024 * o..1024 * (o + s)];
  }

  lemma ShlNothing(n: nat)
    ensures Shl(n, 0) == n
  {
  }

  /** Counting in larger units names the same subtrees. */
  lemma {:induction false} RootsShl<N, C>(alg: Alg<N, C>, data: Bytes, n: nat, k: nat)
    requires 1024 * Shl(n, k) <= |data|
    ensures Roots(alg, data, n, k) == Roots(alg, data, Shl(n, k), 0)
    decreases k
  {
    hide Roots, Sub, Shl;
    if k == 0 {
      ShlNothing(n);
    } else {
      ShlDouble(n, k - 1);
      RootsShl(alg, data, 2 * n, k - 1);
      RootsStep(alg, data, 2 * n, k - 1);
      assert (2 * n) / 2 == n && k - 1 + 1 == k;
    }
  }

  /** The lazily merged stack over c chunks: the roots for c - 2^k, then one more subtree of 2^k chunks. */
  ghost predicate Lazy<N, C>(alg: Alg<N, C>, data: Bytes, c: nat, stack: seq<C>, m: nat, k: nat) {
    && c == Shl(m, k) + Pow2(k) && 1024 * c <= |data|
    && stack == Roots(alg, data, m, k) + [Sub(alg, data, Shl(m, k), Pow2(k))]
  }

  /** Pushing a subtree that its position is a multiple of leaves a lazily merged stack. */
  lemma LazyPush<N, C>(alg: Alg<N, C>, data: Bytes, c: nat, stack: seq<C>, m: nat, k: nat)
    requires c == Shl(m, k) && 1024 * (c + Pow2(k)) <= |data|
    requires stack == Roots(alg, data, c, 0) + [Sub(alg, data, c, Pow2(k))]
    ensures Lazy(alg, data, c + Pow2(k), stack, m, k)
  {
    hide Roots, Sub;
    RootsShl(alg, data, m, k);
  }

  /** With m even nothing is left to merge: the stack holds the roots named by c. */
  lemma LazyDone<N, C>(alg: Alg<N, C>, data: Bytes, c: nat, stack: seq<C>, m: nat, k: nat)
    requires Lazy(alg, data, c, stack, m, k) && m % 2 == 0
    ensures stack == Roots(alg, data, c, 0)
  {
    hide Roots, Tree, TreeCv, Sub;
    ShlAdd(m, 1, k);
    ShlOne(0, k);
    RootsSucc(alg, data, m, k);
    RootsShl(alg, data, m + 1, k);
  }

  lemma RootsSucc<N, C>(alg: Alg<N, C>, data: Bytes, m: nat, k: nat)
    requires m % 2 == 0 && Shl(m + 1, k) == Shl(m, k) + Pow2(k) && 1024 * Shl(m + 1, k) <= |data|
    ensures Roots(alg, data, m + 1, k) == Roots(alg, data, m, k) + [Sub(alg, data, Shl(m, k), Pow2(k))]
  {
    RootsStep(alg, data, m, k);
    RootsStep(alg, data, m + 1, k);
    assert (m + 1) / 2 == m / 2;
  }

  /** With m odd the top two subtrees have equal size, are adjacent, and merge. */
  lemma LazyMerge<N, C>(alg: Alg<N, C>, data: Bytes, c: nat, stack: seq<C>, m: nat, k: nat)
    requires Lazy(alg, data, c, stack, m, k) && m % 2 == 1
    ensures |stack| >= 2
    ensures Lazy(alg, data, c, stack[..|stack| - 2] + [alg.chain(alg.parent(stack[|stack| - 2], stack[|stack| - 1]))],
                 m / 2, k + 1)
  {
    hide Roots, Tree, TreeCv, Sub;
    RootsStep(alg, data, m, k);
    var o, h := Shl(m / 2, k + 1), Pow2(k);
    var below, x, y := Roots(alg, data, m / 2, k + 1), Sub(alg, data, o, h), Sub(alg, data, o + h, h);
    assert stack == below + [x] + [y];
    assert stack[..|stack| - 2] == below && stack[|stack| - 2] == x && stack[|stack| - 1] == y;
    SubJoin(alg, data, o, k, h);
  }

  /** The number of entries tells whether there is anything left to merge. */
  lemma LazyCount<N, C>(alg: Alg<N, C>, data: Bytes, c: nat, stack: seq<C>, m: nat, k: nat)
    requires Lazy(alg, data, c, stack, m, k)
    ensures |stack| > PopCount(c) <==> m % 2 == 1
  {
    hide Roots, Sub, PopCount, Shl;
    PopCountShl(m + 1, k);
    ShlAdd(m, 1, k);
    ShlOne(0, k);
    PopCountSucc(m);
  }

  // ----- Rolling up the stack into the root.

  /** Merging the entries of a stack, from the top down, into a node. */
  function RollUp<N, C>(alg: Alg<N, C>, stack: seq<C>, top: N): N {
    if stack == [] then top
    else RollUp(alg, stack[..|stack| - 1], alg.parent(stack[|stack| - 1], alg.chain(top)))
  }

  /** The roots for n * 2^k chunks, rolled up with the tree over at most 2^k chunks that follow,
      give the tree over everything. */
  lemma {:induction false} RollUpRoots<N, C>(alg: Alg<N, C>, data: Bytes, n: nat, k: nat)
    requires 1024 * Shl(n, k) < |data| <= 1024 * (Shl(n, k) + Pow2(k))
    ensures RollUp(alg, Roots(alg, data, n, k), Tree(alg, Shl(n, k), data[1024 * Shl(n, k)..])) == Tree(alg, 0, data)
    decreases n
  {
    if n == 0 {
      ShlZero(k);
      assert data[0..] == data;
    } else {
      RootsStep(alg, data, n, k);
      RollUpRoots(alg, data, n / 2, k + 1);
      if n % 2 == 1 {
        RollUpOdd(alg, data, n, k);
      }
    }
  }

  lemma RollUpOdd<N, C>(alg: Alg<N, C>, data: Bytes, n: nat, k: nat)
    requires n % 2 == 1 && 1024 * Shl(n, k) < |data| <= 1024 * (Shl(n, k) + Pow2(k))
    ensures Shl(n / 2, k + 1) <= Shl(n, k)
    ensures RollUp(alg, Roots(alg, data, n, k), Tree(alg, Shl(n, k), data[1024 * Shl(n, k)..]))
         == RollUp(alg, Roots(alg, data, n / 2, k + 1), Tree(alg, Shl(n / 2, k + 1), data[1024 * Shl(n / 2, k + 1)..]))
  {
    hide Roots, Tree, TreeCv, Sub, Pow2;
    RootsStep(alg, data, n, k);
    var o, h := Shl(n / 2, k + 1), Pow2(k);
    RollUpStep(alg, data, o, k, h);
    RollUpPush(alg, Roots(alg, data, n / 2, k + 1), Sub(alg, data, o, h), Tree(alg, o + h, data[1024 * (o + h)..]));
  }

  lemma RollUpPush<N, C>(alg: Alg<N, C>, stack: seq<C>, last: C, top: N)
    ensures RollUp(alg, stack + [last], top) == RollUp(alg, stack, alg.parent(last, alg.chain(top)))
  {
    assert (stack + [last])[..|stack|] == stack;
  }

  /** A perfect subtree of 2^k chunks at o and the at most 2^k chunks behind it form the tree from o on. */
  lemma RollUpStep<N, C>(alg: Alg<N, C>, data: Bytes, o: nat, k: nat, h: nat)
    requires h == Pow2(k) && 1024 * (o + h) < |data| <= 1024 * (o + 2 * h)
    ensures alg.parent(Sub(alg, data, o, h), alg.chain(Tree(alg, o + h, data[1024 * (o + h)..])))
         == Tree(alg, o, data[1024 * o..])
  {
    hide Tree, LeftChunks, Pow2;
    var a, b := data[1024 * o..1024 * (o + h)], data[1024 * (o + h)..];
    SliceJoin(data, 1024 * o, 1024 * (o + h), |data|);
    TreeJoin(alg, o, data[1024 * o..], a, b, k, h);
  }

  /** Rolling up a lazily merged stack of at least two entries that covers everything. */
  lemma RollUpLazy<N, C>(alg: Alg<N, C>, data: Bytes, c: nat, stack: seq<C>, m: nat, k: nat)
    requires Lazy(alg, data, c, stack, m, k) && m > 0 && |data| == 1024 * c
    ensures |stack| >= 2
    ensures RollUp(alg, stack[..|stack| - 2], alg.parent(stack[|stack| - 2], stack[|stack| - 1])) == Tree(alg, 0, data)
  {
    hide Tree, Roots;
    PopCountPositive(m);
    RollUpRoots(alg, data, m, k);
    var below := Roots(alg, data, m, k);
    assert below == below[..|below| - 1] + [below[|below| - 1]];
    assert stack[..|stack| - 2] == below[..|below| - 1];
    assert data[1024 * Shl(m, k)..] == data[1024 * Shl(m, k)..1024 * (Shl(m, k) + Pow2(k))];
    RollUpPush(alg, below[..|below| - 1], below[|below| - 1], Tree(alg, Shl(m, k), data[1024 * Shl(m, k)..]));
  }
}
