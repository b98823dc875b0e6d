/** The BLAKE3 tree hash as its paper defines it (sections 2.1 to 2.6), for an arbitrary
    compression function. The incremental hasher is proved against these functions. */
module Blake3Spec {
  import opened Bits
  import opened MerkleTree
  import opened Octets

  /** A chaining value as eight words, and as the 32 bytes it is stored in. */
  type Cv = s: seq<bv32> | |s| == 8 witness seq(8, _ => 0)
  type CvBytes = s: Bytes | |s| == 32 witness seq(32, _ => 0)
  type Block = s: Bytes | |s| == 64 witness seq(64, _ => 0)

  const INPUT_LIMIT: nat := 0x1_0000_0000_0000_0000

  /** The domain flags. Each is one bit of its own in the flags byte, so a byte is a set of them. */
  datatype Flag = ChunkStart | ChunkEnd | Parent | Root | KeyedHash | DeriveKeyContext | DeriveKeyMaterial
  type Flags = set<Flag>


  const IV: Cv := [0x6A09E667, 0xBB67AE85, 0x3C6EF372, 0xA54FF53A, 0x510E527F, 0x9B05688C, 0x1F83D9AB, 0x5BE0CD19]

  /** The two entry points of the compression function, the chaining value and the full 64-byte
      block of extended output (arguments: cv, block, block length, counter, flags), and the
      conversions of a chaining value to and from bytes. */
  datatype Compressor = Compressor(
    compress: (Cv, Block, nat, nat, Flags) -> Cv,
    xof: (Cv, Block, nat, nat, Flags) -> Block,
    store: Cv -> CvBytes,
    load: CvBytes -> Cv)

  /** A compressor with the key and the domain flags of one hashing mode. */
  datatype Mode = Mode(f: Compressor, key: Cv, flags: Flags)

  /** output_t: the arguments of a final compression that has not been performed yet. */
  datatype Node = Node(inputCv: Cv, block: Block, blockLen: nat, counter: nat, flags: Flags)

  /** A node used as an inner node: its chaining value (section 2.1). */
  function Chain(f: Compressor, n: Node): CvBytes {
    f.store(f.compress(n.inputCv, n.block, n.blockLen, n.counter, n.flags))
  }

  /** A block shorter than 64 bytes is padded with zeros. */
  function Pad(b: Bytes): (r: Block)
    requires |b| <= 64
    ensures b <= r && forall i | |b| <= i < 64 :: r[i] == 0
    decreases 64 - |b|
  {
    if |b| == 64 then b else Pad(b + [0])
  }

  lemma PadUnique(b: Bytes, r: Block)
    requires b <= r && forall i | |b| <= i < 64 :: r[i] == 0
    ensures r == Pad(b)
  {
  }

  function StartFlag(blockIndex: nat): Flags {
    if blockIndex == 0 then {ChunkStart} else {}
  }

  /** The chaining value after the first n full blocks of a chunk (section 2.4). */
  function CvAfter(m: Mode, counter: nat, chunk: Bytes, n: nat): Cv
    requires 64 * n <= |chunk|
  {
    if n == 0 then m.key
    else m.f.compress(CvAfter(m, counter, chunk, n - 1), chunk[64 * (n - 1)..64 * n],
                      64, counter, m.flags + StartFlag(n - 1))
  }

  /** The node of a chunk whose first n blocks led to cv: its last block, zero-padded, with the
      end flag (section 2.4). The empty chunk has one empty block. */
  function LastBlock(m: Mode, counter: nat, chunk: Bytes, n: nat, cv: Cv): Node
    requires 64 * n <= |chunk|
    decreases |chunk| - 64 * n
  {
    if |chunk| <= 64 * (n + 1) then
      Node(cv, Pad(chunk[64 * n..]), |chunk| - 64 * n, counter, m.flags + StartFlag(n) + {ChunkEnd})
    else
      LastBlock(m, counter, chunk, n + 1,
                m.f.compress(cv, chunk[64 * n..64 * (n + 1)], 64, counter, m.flags + StartFlag(n)))
  }

  function ChunkNode(m: Mode, counter: nat, chunk: Bytes): Node {
    LastBlock(m, counter, chunk, 0, m.key)
  }

  /** The message block of a parent. */
  function Join(left: CvBytes, right: CvBytes): Block {
    var l: Bytes, r: Bytes := left, right;
    l + r
  }

  /** A parent node over two child chaining values (section 2.5). */
  function ParentNode(m: Mode, left: CvBytes, right: CvBytes): Node {
    Node(m.key, Join(left, right), 64, 0, m.flags + {Parent})
  }

  /** The tree of a mode: chunks, parents, and the compression of either. */
  function TreeAlg(m: Mode): Alg<Node, CvBytes> {
    Alg((counter, chunk) => ChunkNode(m, counter, chunk),
        (left: CvBytes, right: CvBytes) => ParentNode(m, left, right),
        n => Chain(m.f, n))
  }

  /** alg has the operations of the tree of m. */
  ghost predicate Realizes(alg: Alg<Node, CvBytes>, m: Mode) {
    && (forall c: nat, x: Bytes {:trigger ChunkNode(m, c, x)} :: alg.leaf(c, x) == ChunkNode(m, c, x))
    && (forall l: CvBytes, r: CvBytes {:trigger ParentNode(m, l, r)} :: alg.parent(l, r) == ParentNode(m, l, r))
    && (forall n: Node {:trigger Chain(m.f, n)} :: alg.chain(n) == Chain(m.f, n))
  }

  lemma TreeAlgRealizes(m: Mode)
    ensures Realizes(TreeAlg(m), m)
  {
  }

  /** Byte i of the root output stream: root compressions in counter mode (section 2.6). */
  function RootByte(f: Compressor, n: Node, i: nat): Byte {
    f.xof(n.inputCv, n.block, n.blockLen, i / 64, n.flags + {Root})[i % 64]
  }

  /** Bytes [seek, seek + len) of the root output stream. */
  function RootBytes(f: Compressor, n: Node, seek: nat, len: nat): (r: Bytes)
    ensures |r| == len
  {
    seq(len, i requires 0 <= i < len => RootByte(f, n, seek + i))
  }

  /** The hash of an input: len bytes of its root output stream from position seek on. */
  function Hash(m: Mode, input: Bytes, seek: nat, len: nat): Bytes {
    RootBytes(m.f, Tree(TreeAlg(m), 0, input), seek, len)
  }

  lemma RootBytesAdjacent(f: Compressor, n: Node, seek: nat, a: nat, b: nat)
    ensures RootBytes(f, n, seek, a) + RootBytes(f, n, seek + a, b) == RootBytes(f, n, seek, a + b)
  {
    hide RootByte;
    var whole, second := RootBytes(f, n, seek, a + b), RootBytes(f, n, seek + a, b);
    forall i | 0 <= i < b ensures whole[a + i] == second[i] {
      assert seek + (a + i) == seek + a + i;
    }
  }

  lemma RootBytesSlice(f: Compressor, n: Node, seek: nat, len: nat, i: nat, j: nat)
    requires i <= j <= len
    ensures RootBytes(f, n, seek, len)[i..j] == RootBytes(f, n, seek + i, j - i)
  {
    hide RootByte;
    var whole, part := RootBytes(f, n, seek, len), RootBytes(f, n, seek + i, j - i);
    forall k | 0 <= k < j - i ensures whole[i..j][k] == part[k] {
      assert seek + (i + k) == seek + i + k;
    }
  }

  /** Reading the output in two adjacent pieces gives the same bytes as reading it at once. */
  lemma HashAdjacent(m: Mode, input: Bytes, seek: nat, a: nat, b: nat)
    ensures Hash(m, input, seek, a) + Hash(m, input, seek + a, b) == Hash(m, input, seek, a + b)
  {
    RootBytesAdjacent(m.f, Tree(TreeAlg(m), 0, input), seek, a, b);
  }

  /** left_subtree_len. */
  method LeftSubtreeLen(len: nat) returns (l: nat)
    requires 1024 < len < INPUT_LIMIT
    ensures l == 1024 * LeftChunks(len)
  {
    var fullChunks := (len - 1) / 1024;
    var p := RoundDownToPowerOf2(fullChunks);
    var k := LargestPow2Exponent(fullChunks);
    LeftChunksUnique(len, k);
    l := p * 1024;
  }
}
