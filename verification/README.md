# Verified models of the libraries built into Quack

Quack links a handful of small libraries: BLAKE3, xxHash, ixwebsocket, a base64
header and parts of Luau. This project models the algorithms in them and proves,
in Dafny 4.11, what each of them is for. `dafny verify dfyconfig.toml` checks
everything.

| file | models |
|---|---|
| `Bytes.dfy`, `Sequences.dfy`, `Bits.dfy` | the two kinds of bytes, as bits and as numbers; concatenation and slices; powers of two, masks, bit counts, bitwise operations, and the bit tricks of `blake3_impl.h` |
| `MerkleTree.dfy` | binary trees over chunks for any hash: recursive splitting, level-by-level pairing, the roots named by the 1-bits of a counter, lazily merged stacks |
| `Blake3Spec.dfy` | BLAKE3 as the paper defines it: chunks, parents, the root output stream (sections 2.1, 2.4, 2.5, 2.6) |
| `Blake3Chunk.dfy`, `Blake3Wide.dfy`, `Blake3Hasher.dfy` | the chunk state, the wide subtree compression, and the incremental hasher |
| `Xxh3.dfy`, `XxhClassic.dfy`, `XxhLanes.dfy` | XXH3, XXH32 and XXH64 streaming against one-shot; 64-bit multiplication and the AVX2 lanes |
| `Utf8.dfy` | the table-driven UTF-8 validator |
| `WsSocket.dfy`, `WsFrame.dfy`, `WsSender.dfy`, `WsReceiver.dfy`, `WsRoundTrip.dfy`, `WsExchange.dfy` | the two ends of a socket, WebSocket frames, the sending and the receiving half, what one makes of the other, and a whole exchange |
| `ConnectionGc.dfy` | the connection-thread garbage collector of `SocketServer` as a step relation |
| `Base64.dfy`, `Sha1.dfy` | base64, and the handshake key computation with its in-place SHA-1 |
| `BumpAllocator.dfy` | the page-list allocator of the Luau parser |

How to read it. Code that updates an object is a class whose methods are tied to
functions of the old state; code that works in place keeps its array; loops are
loops. What the code is meant to compute is written separately, as recursive
functions close to the standard or the paper, and the methods are proved against
those. The mixing functions of the hashes (BLAKE3 compression, XXH rounds,
scrambles and finalization) are fields of a record, so every theorem about
structure holds for all of them. Sockets are objects that take and give any
number of bytes at a time. In arithmetic, an `|` of disjoint bits is written as
a sum.

Main results.

- BLAKE3 (`Blake3Hasher.HashPieces`): for every key, mode, SIMD degree, cutting of
  the input into updates, seek and output length, the incremental hasher returns
  the bytes of the recursive tree hash.
- XXH3, XXH32 and XXH64 (`HashPieces`, `HashPieces32`, `HashPieces64`): streaming
  over any pieces is the one-shot hash, including XXH3's bytes caught up from the
  end of its buffer and XXH32's wrapping length.
- WebSocket (`MessageDelivered`, `StreamsDelivered`, `Session`, `Exchange`): any number
  of messages sent in fragments, with pings and pongs between and within them, arrive
  once, in order and unchanged through any partial sends, later flushes and receives;
  the cuts of the stream make no difference, and every poll of an open connection asks
  the socket.
- Garbage collector (`NoLostWakeUp`, `JoinedOnce`, `ExitsEmpty`,
  `FinishedAreCollected`, `StopCompletes`): over every interleaving, `setTerminated`
  being called by any threads at any time, no wake-up is lost, each thread is joined
  once, finished threads are collected in a bounded number of steps, and a stop
  comes to its end.
- Allocator (`Use`, `Life`): over any run of allocations and moves, up to the first
  call whose sums do not fit 64 bits, with every allocator used on after it was moved
  from, all blocks are aligned, apart and inside live pages, and each page is freed
  once.
- UTF-8, SHA-1 and base64: the automaton accepts exactly the grammar; the circular
  schedule and rotating registers compute FIPS 180-4; both base64 round trips.

Four things the code does that its users may not expect are stated exactly.
`sendData` on an open connection reports success if and only if the connection stays
open, also for a message that its progress callback cut short
(`WebSocketSender.Sender.SendData`); `CutShort` sends half of such a message. A
decoded base64 text encodes back to itself if and only if its unused bits are zero
(`Base64.Canonical`); `UnusedBitsAccepted` shows it for "Zh==". `Allocator::allocate`
returns a block inside a page if and only if one sum does not wrap around 64 bits;
`HugeSizeWraps` gives a size for which it does. The collector joins a connection
thread that is marked as terminated while it runs, with the list locked: the acceptor,
and a stop that waits for it, are held up until that thread returns, exactly then
(`ConnectionGc.AcceptorHeldUp`, `StopHeldUp`); `StopCanBeHeldUp` is a run into it.

## Model

| member | source | states |
|---|---|---|
| Bits.PopCnt | Quack/Dependencies/blake3/blake3_impl.h:132-143 | clearing the lowest 1-bit until none is left takes as many rounds as there are 1-bits |
| Bits.AndPredecessor | Quack/Dependencies/blake3/blake3_impl.h:137-140 | x & (x - 1) is x less one power of two, its lowest 1-bit, and has one 1-bit fewer |
| Bits.HighestOneStep | Quack/Dependencies/blake3/blake3_impl.h:121-125 | one masked test keeps the index of the highest 1-bit: shift plus remaining index is the index before |
| Bits.HighestOne | Quack/Dependencies/blake3/blake3_impl.h:102-129 | for every non-zero 64-bit word the result c satisfies 2^c <= x < 2^(c+1) |
| Bits.RoundDownToPowerOf2 | Quack/Dependencies/blake3/blake3_impl.h:147-149 | the largest power of two that is at most x, and 1 for 0 |
| Bits.MaskTest | Quack/Dependencies/blake3/blake3.c:542-544 | the mask test of the update loop is zero exactly for multiples of the power of two |
| Bits.PopCountSucc | Quack/Dependencies/blake3/blake3.c:425-434 | adding one to a counter adds at most one 1-bit |
| MerkleTree.LeftChunksUnique | Quack/Dependencies/blake3/blake3.c:159-167 | the split point is the only power of two of chunks with at least one and at most as many bytes to its right |
| MerkleTree.TreeJoin | Quack/Dependencies/blake3/blake3.c:282-290 | 2^k full chunks and at most as many bytes after them are the two subtrees of their concatenation |
| MerkleTree.PairUpSameTree | Quack/Dependencies/blake3/blake3.c:217-250 | pairing a list level by level, the odd value carried up, gives the same root and the same two top children as splitting it recursively |
| MerkleTree.JoinLists | Quack/Dependencies/blake3/blake3.c:325-336 | two lists joined, and the same list paired up once, have the same tree over them |
| MerkleTree.ChunkCvsTree | Quack/Dependencies/blake3/blake3.c:173-210 | the tree over the chunk chaining values is the tree over the input |
| MerkleTree.CoversJoin | Quack/Dependencies/blake3/blake3.c:325-336 | what the two halves of an input wrote, joined or paired up, has the tree of the whole input over it |
| MerkleTree.RootsShl | Quack/Dependencies/blake3/blake3.c:415-424 | counting chunks in larger units names the same perfect subtrees |
| MerkleTree.SubJoin | Quack/Dependencies/blake3/blake3.c:427-433 | two adjacent perfect subtrees of equal size are the children of the one of twice the size |
| MerkleTree.LazyPush | Quack/Dependencies/blake3/blake3.c:436-474 | pushing a subtree at a multiple of its size onto the canonical roots leaves a lazily merged stack |
| MerkleTree.LazyMerge | Quack/Dependencies/blake3/blake3.c:427-433 | while merging is due the top two entries are adjacent subtrees of equal size and their parent keeps the stack lazily merged |
| MerkleTree.LazyCount | Quack/Dependencies/blake3/blake3.c:425-427 | the stack holds more entries than the counter has 1-bits exactly when a merge is due |
| MerkleTree.LazyDone | Quack/Dependencies/blake3/blake3.c:425-434 | when none is due the stack is exactly the roots named by the 1-bits of the counter, highest first |
| MerkleTree.RollUpRoots | Quack/Dependencies/blake3/blake3.c:638-644 | rolling the roots up with the tree of the bytes behind them gives the tree of everything |
| MerkleTree.RollUpLazy | Quack/Dependencies/blake3/blake3.c:632-644 | rolling up from the top two entries of a lazily merged stack gives the root over all chunks |
| Blake3Spec.LeftSubtreeLen | Quack/Dependencies/blake3/blake3.c:162-167 | the byte length of the left subtree of the recursive definition |
| Blake3Spec.HashAdjacent | Quack/Dependencies/blake3/blake3.c:90-117 | two adjacent reads of the output concatenate to one read of both |
| Blake3Spec.RootBytesSlice | Quack/Dependencies/blake3/blake3.c:97-106 | a slice of the output stream is the stream read at the later position |
| Blake3Chunk.LastBlockAfter | Quack/Dependencies/blake3/blake3.c:147-152 | completing a chunk from any number of compressed blocks gives the node of the chunk |
| Blake3Chunk.ChunkState.constructor | Quack/Dependencies/blake3/blake3.c:11-19 | a fresh chunk state has taken in no bytes |
| Blake3Chunk.ChunkState.Reset | Quack/Dependencies/blake3/blake3.c:21-28 | whatever was taken in before, the state is empty at the new counter under the key |
| Blake3Chunk.ChunkState.Len | Quack/Dependencies/blake3/blake3.c:30-33 | the number of bytes taken in so far |
| Blake3Chunk.ChunkState.FillBuf | Quack/Dependencies/blake3/blake3.c:35-45 | takes as many bytes as fit, and the buffer is the zero-padded block of all bytes held |
| Blake3Chunk.ChunkState.UpdateBuffered | Quack/Dependencies/blake3/blake3.c:121-133 | a full buffer is compressed only when more bytes follow, and no byte is lost |
| Blake3Chunk.ChunkState.UpdateBlocks | Quack/Dependencies/blake3/blake3.c:135-142 | whole blocks are compressed while more follow, so the last block is held back |
| Blake3Chunk.ChunkState.Update | Quack/Dependencies/blake3/blake3.c:119-145 | for any pieces the state is that of the concatenation of everything taken in |
| Blake3Chunk.ChunkState.Output | Quack/Dependencies/blake3/blake3.c:147-152 | the output node is the chunk node of section 2.4 over all bytes taken in |
| Blake3Chunk.HashChunk | Quack/Dependencies/blake3/blake3.c:195-209 | the chaining value of a chunk of any length up to 1024, from a temporary state |
| Blake3Wide.HashOne | Quack/Dependencies/blake3/blake3_portable.c:125-143 | folds the blocks with the start flag on the first and the end flag on the last |
| Blake3Wide.HashMany | Quack/Dependencies/blake3/blake3_portable.c:145-160 | one such value per input in its slot, the counter advancing only when asked to, the other slots untouched |
| Blake3Wide.HashOneChunk | Quack/Dependencies/blake3/blake3.c:191-193 | the full-chunk path of hash_many agrees with the chunk state |
| Blake3Wide.HashOneParent | Quack/Dependencies/blake3/blake3.c:234-239 | the one-block path of hash_many gives the parent node's chaining value |
| Blake3Wide.CompressChunksParallel | Quack/Dependencies/blake3/blake3.c:173-210 | the chaining values of all chunks of the input in order, the last one possibly partial |
| Blake3Wide.CompressParentsParallel | Quack/Dependencies/blake3/blake3.c:217-250 | one level of parents with the odd value carried up |
| Blake3Wide.WideCountBounds | Quack/Dependencies/blake3/blake3.c:252-268 | never more values than max(degree, 2), and at least two for more than one chunk |
| Blake3Wide.LeftFillsDegree | Quack/Dependencies/blake3/blake3.c:292-331 | the left call returns exactly the number of values that the code assumes as the place of the right ones, and the right call no more |
| Blake3Wide.WideCovers | Quack/Dependencies/blake3/blake3.c:269-337 | for every power-of-two degree the values returned have the tree of the input over them, with the same two top children |
| Blake3Wide.CompressHalves | Quack/Dependencies/blake3/blake3.c:286-323 | the right values land right behind the left ones and inside the array |
| Blake3Wide.CompressSubtreeWide | Quack/Dependencies/blake3/blake3.c:269-337 | writes a level of the tree of the input into the front of the array and nothing else |
| Blake3Wide.CompressSubtreeToParentNode | Quack/Dependencies/blake3/blake3.c:349-381 | the condensing loop ends with exactly the two children of the root of the input |
| Blake3Hasher.SubtreeLen | Quack/Dependencies/blake3/blake3.c:525-544 | the largest power of two of chunks that fits the input and evenly divides the bytes so far |
| Blake3Hasher.AtMost54Bits | Quack/Dependencies/blake3/blake3.h:38-60 | below 2^64 bytes a chunk counter has at most 54 1-bits |
| Blake3Hasher.Hasher.constructor | Quack/Dependencies/blake3/blake3.c:383-409 | a hasher under any key and flags that has absorbed nothing |
| Blake3Hasher.Hasher.MergeCvStack | Quack/Dependencies/blake3/blake3.c:425-434 | afterwards the stack is exactly the roots named by the 1-bits of the counter |
| Blake3Hasher.Hasher.MergeTop | Quack/Dependencies/blake3/blake3.c:427-433 | the parent of the top two entries takes their place and the rest of the stack stays |
| Blake3Hasher.Hasher.PushCv | Quack/Dependencies/blake3/blake3.c:468-474 | the canonical roots with the new value unmerged on top, within the 55 slots |
| Blake3Hasher.Hasher.PushSub | Quack/Dependencies/blake3/blake3.c:436-474 | a subtree at a multiple of its size is pushed, and the stack stays mergeable for the larger count |
| Blake3Hasher.Hasher.PushSubtree | Quack/Dependencies/blake3/blake3.c:524-568 | one round takes a prefix of the input and the stack still covers everything taken in, mergeable and never overfull |
| Blake3Hasher.Hasher.FinishChunk | Quack/Dependencies/blake3/blake3.c:488-509 | a chunk in progress is completed and pushed only when more bytes follow |
| Blake3Hasher.Hasher.UpdateRest | Quack/Dependencies/blake3/blake3.c:524-582 | with bytes left over the stack is merged to canonical form; with none it has at least two entries or is empty |
| Blake3Hasher.Hasher.Update | Quack/Dependencies/blake3/blake3.c:476-589 | the hasher is in a valid state for the concatenation of all input, empty pieces included |
| Blake3Hasher.Hasher.AtLeastTwo | Quack/Dependencies/blake3/blake3.c:632-637 | with no chunk bytes and a non-empty stack there are at least two entries and rolling up from them gives the root |
| Blake3Hasher.Hasher.FinalizeSeek | Quack/Dependencies/blake3/blake3.c:604-646 | the bytes [seek, seek + len) of the root output stream of the tree over everything absorbed, the hasher unchanged |
| Blake3Hasher.Hasher.Reset | Quack/Dependencies/blake3/blake3.c:648-651 | ready for another input under the same key and flags |
| Blake3Hasher.XofMany | Quack/Dependencies/blake3/blake3_dispatch.c:227-248 | consecutive whole blocks of the counter-mode stream, also none |
| Blake3Hasher.FirstPartialBlock | Quack/Dependencies/blake3/blake3.c:95-106 | the rest of the block that seek points into |
| Blake3Hasher.OutputRootBytes | Quack/Dependencies/blake3/blake3.c:90-117 | for every seek and length exactly that range of the root output stream of section 2.6 |
| Blake3Hasher.HashPieces | Quack/Dependencies/blake3/blake3.c:476-646 | for every mode, platform, cutting, seek and length the result is the recursive tree hash of the concatenation |
| Blake3Hasher.DeriveKey | Quack/Dependencies/blake3/blake3.c:399-409 | key derivation is the two-stage hash of section 2.3 with the two context flags |
| Xxh3.PosWithin | Quack/Dependencies/xxhash/xxhash.h:6412-6446 | the stripe position counts up and returns to zero at the end of a block |
| Xxh3.Accumulate | Quack/Dependencies/xxhash/xxhash.h:4894-4910 | stripes in a row under secret positions eight bytes apart are the reference accumulation |
| Xxh3.ConsumeStripes | Quack/Dependencies/xxhash/xxhash.h:6412-6446 | any number of stripes from any position, scrambling exactly at block ends |
| Xxh3.HashLong | Quack/Dependencies/xxhash/xxhash.h:5987-6018 | blocks, partial block and last stripe give the stripe-by-stripe accumulators for every secret of at least 136 bytes |
| Xxh3.State.constructor | Quack/Dependencies/xxhash/xxhash.h:1812-1817 | enough is initialized for every reset, the rest being arbitrary |
| Xxh3.State.ResetInternal | Quack/Dependencies/xxhash/xxhash.h:6325-6349 | an empty input under the given secret and seed |
| Xxh3.State.Reset | Quack/Dependencies/xxhash/xxhash.h:6352-6358 | keyed by default whatever the state was used for |
| Xxh3.State.ResetWithSecret | Quack/Dependencies/xxhash/xxhash.h:6361-6369 | succeeds exactly for a secret of at least 136 bytes, and then is keyed by it |
| Xxh3.State.ResetWithSeed | Quack/Dependencies/xxhash/xxhash.h:6372-6381 | keyed by the seed, the cached custom secret being reused only when it belongs to that seed |
| Xxh3.State.ResetWithSecretAndSeed | Quack/Dependencies/xxhash/xxhash.h:6384-6393 | succeeds exactly for a long enough secret and leaves the state alone otherwise |
| Xxh3.State.ConsumeBuffer | Quack/Dependencies/xxhash/xxhash.h:6495-6507 | a completed buffer is accumulated as four stripes |
| Xxh3.State.ConsumeInput | Quack/Dependencies/xxhash/xxhash.h:6509-6518 | long input is accumulated directly and its last stripe kept at the end of the buffer |
| Xxh3.State.Update | Quack/Dependencies/xxhash/xxhash.h:6456-6533 | accumulated stripes and buffered bytes make up the input; with less than a stripe buffered the buffer's end still holds the bytes just before them |
| Xxh3.State.DigestLong | Quack/Dependencies/xxhash/xxhash.h:6544-6579 | the accumulators of the one-shot long hash, the last stripe caught up from the buffer's end when needed |
| Xxh3.State.Digest | Quack/Dependencies/xxhash/xxhash.h:6582-6595 | the one-shot hash of everything since the last reset, short inputs included |
| Xxh3.HashOnce | Quack/Dependencies/xxhash/xxhash.h:6159-6210 | the one-shot functions compute block by block what the stripe-by-stripe definition says |
| Xxh3.HashPieces | Quack/Dependencies/xxhash/xxhash.h:6456-6595 | for every keying and cutting, on a used state, streaming equals one-shot |
| XxhClassic.ConsumeAppend | Quack/Dependencies/xxhash/xxhash.h:3018-3038 | consuming can be interrupted anywhere when the tail goes before what follows |
| XxhClassic.TailLength32 | Quack/Dependencies/xxhash/xxhash.h:3157-3176 | the bytes left over are len & 15 |
| XxhClassic.TailLength64 | Quack/Dependencies/xxhash/xxhash.h:3611-3615 | the bytes left over are len & 31, as the digest counts them from the total length |
| XxhClassic.ConsumeLong | Quack/Dependencies/xxhash/xxhash.h:3017-3038 | the accumulators after all whole blocks, and the place where the tail starts |
| XxhClassic.Core.Flush | Quack/Dependencies/xxhash/xxhash.h:3253-3258 | completing the buffer loses and repeats no byte |
| XxhClassic.Core.Absorb | Quack/Dependencies/xxhash/xxhash.h:3244-3274 | accumulators and buffer are those of the concatenation of everything fed |
| XxhClassic.CounterStep | Quack/Dependencies/xxhash/xxhash.h:3239-3240 | the wrapped counter still tells when the true total first reaches 16 |
| XxhClassic.State32.Update | Quack/Dependencies/xxhash/xxhash.h:3231-3274 | the length is kept modulo 2^32 while large_len says forever whether 16 bytes were reached |
| XxhClassic.State32.Digest | Quack/Dependencies/xxhash/xxhash.h:3278-3291 | the one-shot XXH32 of everything fed, of any total length |
| XxhClassic.State64.Update | Quack/Dependencies/xxhash/xxhash.h:3727-3770 | the state of the concatenation, with the exact total length |
| XxhClassic.State64.Digest | Quack/Dependencies/xxhash/xxhash.h:3773-3786 | the one-shot XXH64 of everything fed |
| XxhClassic.HashOnce32 | Quack/Dependencies/xxhash/xxhash.h:3156-3177 | the one-shot function, taking len & 15 bytes from where the blocks end, computes the block-by-block definition |
| XxhClassic.HashOnce64 | Quack/Dependencies/xxhash/xxhash.h:3654-3674 | the same with the length masked by 31 |
| XxhClassic.HashPieces32 | Quack/Dependencies/xxhash/xxhash.h:3156-3291 | for every seed and cutting XXH32 streaming equals XXH32 |
| XxhClassic.HashPieces64 | Quack/Dependencies/xxhash/xxhash.h:3654-3786 | for every seed and cutting XXH64 streaming equals XXH64 |
| XxhLanes.CrossSums | Quack/Dependencies/xxhash/xxhash.h:4543-4546 | the sums of the partial products never exceed 64 bits and put the product together |
| XxhLanes.Mult64to128 | Quack/Dependencies/xxhash/xxhash.h:4537-4551 | high * 2^64 + low is the exact product of any two 64-bit words |
| XxhLanes.AccumulateScalar | Quack/Dependencies/xxhash/xxhash.h:5777-5816 | the in-place rounds, each changing two lanes, give each lane its neighbour's data and its own product |
| XxhLanes.AccumulateVecLanes | Quack/Dependencies/xxhash/xxhash.h:5080-5098 | every lane of the AVX2 form is that lane, for every input |
| XxhLanes.AccumulateAvx2 | Quack/Dependencies/xxhash/xxhash.h:5066-5099 | the two vectors together leave the array as the scalar loop does |
| XxhLanes.ScrambleScalar | Quack/Dependencies/xxhash/xxhash.h:5819-5856 | every lane scrambled once |
| XxhLanes.SplitProduct | Quack/Dependencies/xxhash/xxhash.h:5121-5125 | a 64 by 32 bit product from two 32-bit products and a shift, modulo 2^64 |
| XxhLanes.ScrambleAvx2 | Quack/Dependencies/xxhash/xxhash.h:5102-5128 | the split product leaves the array as the scalar scramble does |
| Utf8.Rows | Quack/Dependencies/ixwebsocket/IXUtf8Validator.h:50-76 | what each row of the table means as ranges of bytes |
| Utf8.RejectAbsorbs | Quack/Dependencies/ixwebsocket/IXUtf8Validator.h:68 | no continuation leaves the reject state |
| Utf8.RunChar | Quack/Dependencies/ixwebsocket/IXUtf8Validator.h:85-93 | from accept the automaton reads exactly one character of the grammar, or can no longer accept |
| Utf8.AcceptsWellFormed | Quack/Dependencies/ixwebsocket/IXUtf8Validator.h:50-93 | the automaton ends in accept exactly on the strings of section 4 of RFC 3629 |
| Utf8.LeadBits | Quack/Dependencies/ixwebsocket/IXUtf8Validator.h:89 | the mask 0xff >> class leaves the payload of the lead byte |
| Utf8.CharCodepoint | Quack/Dependencies/ixwebsocket/IXUtf8Validator.h:85-93 | after a character the codepoint is the scalar value that encodes to the bytes just read |
| Utf8.DecodesEncoding | Quack/Dependencies/ixwebsocket/IXUtf8Validator.h:85-93 | every scalar value comes back from its encoding, whatever the codepoint was before |
| Utf8.DecodesText | Quack/Dependencies/ixwebsocket/IXUtf8Validator.h:127-140 | reading any encoded text is in accept after each scalar value with that value in the codepoint |
| Utf8.AcceptedText | Quack/Dependencies/ixwebsocket/IXUtf8Validator.h:127-149 | every accepted string is the encoding of some text, the codepoint being its last scalar value |
| Utf8.Utf8Validator.DecodeNextByte | Quack/Dependencies/ixwebsocket/IXUtf8Validator.h:85-93 | one step of the automaton and of the codepoint by table lookup |
| Utf8.Utf8Validator.Decode | Quack/Dependencies/ixwebsocket/IXUtf8Validator.h:127-140 | fails exactly when the run ends in reject, although it stops at the first bad byte |
| Utf8.ValidateUtf8 | Quack/Dependencies/ixwebsocket/IXUtf8Validator.h:168-176 | true exactly for well-formed strings |
| WebSocketFrame.MaskedTwice | Quack/Dependencies/ixwebsocket/IXWebSocketTransport.cpp:419-437 | masking twice with one key is the identity, so the peer unmasks what was masked |
| WebSocketFrame.BigEndianInverse | Quack/Dependencies/ixwebsocket/IXWebSocketTransport.cpp:494-519 | a length read from its bytes in network order is the length |
| WebSocketFrame.HeaderPrefix | Quack/Dependencies/ixwebsocket/IXWebSocketTransport.cpp:466-539 | what is read from a header depends on nothing behind it |
| WebSocketFrame.ReadsBack | Quack/Dependencies/ixwebsocket/IXWebSocketTransport.cpp:947-1034 | every frame, masked or not, in any of the three length forms, reads back as itself |
| WebSocketSender.FragmentsAreShort | Quack/Dependencies/ixwebsocket/IXWebSocketTransport.cpp:874-930 | no fragment of any message needs the 64-bit length form |
| WebSocketSender.BigEndianAt | Quack/Dependencies/ixwebsocket/IXWebSocketTransport.cpp:1010-1018 | the bytes written by right shifts are the length in network order |
| WebSocketSender.Sender.AppendToSendBuffer | Quack/Dependencies/ixwebsocket/IXWebSocketTransport.cpp:407-426 | header and masked payload behind what was buffered, which stays as it was |
| WebSocketSender.Sender.SendOnSocket | Quack/Dependencies/ixwebsocket/IXWebSocketTransport.cpp:1066-1098 | bytes sent followed by bytes buffered never change; it goes on until the buffer is empty or the last answer of the socket was to wait, and fails exactly on an error, which closes the connection |
| WebSocketSender.Sender.FlushSendBuffer | Quack/Dependencies/ixwebsocket/IXWebSocketTransport.cpp:1243-1267 | the same over any rounds of waiting for the socket: it fails only on an error of the socket or of the waiting, and otherwise ends with an empty buffer, an answer to wait, or nothing done because the socket was never ready |
| WebSocketSender.Sender.MakeHeader | Quack/Dependencies/ixwebsocket/IXWebSocketTransport.cpp:963-1027 | the bytes written one by one are the header of the frame |
| WebSocketSender.Sender.SendFragment | Quack/Dependencies/ixwebsocket/IXWebSocketTransport.cpp:947-1034 | exactly one encoded frame is added to the stream, and it succeeds exactly if the socket did not fail |
| WebSocketSender.Sender.SendStep | Quack/Dependencies/ixwebsocket/IXWebSocketTransport.cpp:895-929 | round i of the loop adds fragment i, typed and finished as section 5.4 asks |
| WebSocketSender.Sender.SendSteps | Quack/Dependencies/ixwebsocket/IXWebSocketTransport.cpp:886-930 | the loop adds fragments until the socket fails or at the first refusal of the progress callback, no earlier and no later |
| WebSocketSender.Sender.SendData | Quack/Dependencies/ixwebsocket/IXWebSocketTransport.cpp:832-945 | fragments are added in order and, if sending is blocking, flushed; on an open connection it succeeds if and only if the connection stays open, which only a failure of the socket or of the wait for it ends, and a success is complete if and only if the progress callback refused nothing before the last fragment |
| WebSocketSender.CutShort | Quack/Dependencies/ixwebsocket/IXWebSocketTransport.cpp:912-929 | a 65536-byte message under a callback that refuses: one of two fragments is sent, and that is a success unless the socket failed |
| WebSocketReceiver.StepAppend | Quack/Dependencies/ixwebsocket/IXWebSocketTransport.cpp:464-563 | a turn that had its whole frame, or met an error, does not see the bytes behind it |
| WebSocketReceiver.RunAppend | Quack/Dependencies/ixwebsocket/IXWebSocketTransport.cpp:464-743 | dispatching the first part of a stream and then the leftover with the second part is dispatching the whole: same events in order, same leftover, same assembly |
| WebSocketReceiver.StopsAppend | Quack/Dependencies/ixwebsocket/IXWebSocketTransport.cpp:480-563 | an error found in a part of the stream is found in the whole |
| WebSocketReceiver.Receiver.UnmaskReceiveBuffer | Quack/Dependencies/ixwebsocket/IXWebSocketTransport.cpp:428-437 | the payload is unmasked where it lies and nothing else changes |
| WebSocketReceiver.Receiver.EmitMessage | Quack/Dependencies/ixwebsocket/IXWebSocketTransport.cpp:788-822 | delivers the message, or refuses a text that is not UTF-8 |
| WebSocketReceiver.Receiver.GetMergedChunks | Quack/Dependencies/ixwebsocket/IXWebSocketTransport.cpp:769-786 | the concatenation of the chunks in order |
| WebSocketReceiver.Receiver.OnDataFrame | Quack/Dependencies/ixwebsocket/IXWebSocketTransport.cpp:569-635 | the fragment machine, with its out-of-sequence errors that do not stop it |
| WebSocketReceiver.Receiver.ReadLength | Quack/Dependencies/ixwebsocket/IXWebSocketTransport.cpp:494-519 | the payload length in each of the three forms |
| WebSocketReceiver.Receiver.ReadHeader | Quack/Dependencies/ixwebsocket/IXWebSocketTransport.cpp:466-539 | complete exactly when the whole header has arrived, and then read as sent |
| WebSocketReceiver.Receiver.HandleFrame | Quack/Dependencies/ixwebsocket/IXWebSocketTransport.cpp:566-742 | what an unmasked frame of each opcode does to the chunks and the callbacks, an oversized ping included |
| WebSocketReceiver.Receiver.DispatchFrame | Quack/Dependencies/ixwebsocket/IXWebSocketTransport.cpp:554-742 | what a whole frame does to the buffer, the chunks and the callbacks, errors included |
| WebSocketReceiver.Receiver.Dispatch | Quack/Dependencies/ixwebsocket/IXWebSocketTransport.cpp:461-767 | the loop run to its end; only leaving it by break on a failed poll clears the buffer |
| WebSocketReceiver.Receiver.ReceiveFromSocket | Quack/Dependencies/ixwebsocket/IXWebSocketTransport.cpp:1100-1138 | every received byte is appended once and in order, the buffer stays below max(kChunkSize, _rxbufWanted) + kChunkSize; recv is called if and only if the buffer is below the limit, and until the limit is reached, it asks to wait, or it fails |
| WebSocketReceiver.DispatchSettles | Quack/Dependencies/ixwebsocket/IXWebSocketTransport.cpp:548-554 | after an error-free dispatch either no whole header is left or exactly the incomplete frame is awaited |
| WebSocketReceiver.WaitingBelowLimit | Quack/Dependencies/ixwebsocket/IXWebSocketTransport.cpp:1111-1114 | the receiver is then below the limit at which receiveFromSocket stops calling recv |
| WebSocketReceiver.Session | Quack/Dependencies/ixwebsocket/IXWebSocketTransport.cpp:461-1138 | however network, recv and limits cut an error-free stream, the callbacks and leftover bytes are those of one dispatch over everything received; every poll calls recv at least once and keeps the buffer bound, and polling ends early only on a socket failure |
| WebSocketRoundTrip.FrameTurn | Quack/Dependencies/ixwebsocket/IXWebSocketTransport.cpp:464-743 | one encoded frame is one turn of the dispatch loop |
| WebSocketRoundTrip.FramesTurns | Quack/Dependencies/ixwebsocket/IXWebSocketTransport.cpp:464-743 | a stream of encoded frames is consumed whole, frame by frame |
| WebSocketRoundTrip.StopsExactly | Quack/Dependencies/ixwebsocket/IXWebSocketTransport.cpp:480-645 | a stream of encoded frames makes dispatch return on an error if and only if it holds a fragmented control frame, a ping of more than 125 bytes or a frame above 2^63 bytes |
| WebSocketRoundTrip.Reassembles | Quack/Dependencies/ixwebsocket/IXWebSocketTransport.cpp:569-664 | from any point within a message its remaining fragments complete it once, pings and pongs in between answered and delivered in order |
| WebSocketRoundTrip.MessageDelivered | Quack/Dependencies/ixwebsocket/IXWebSocketTransport.cpp:461-743 | any fragmentation of section 5.4 of RFC 6455 delivers its message once and unchanged, or refuses a text that is not UTF-8 |
| WebSocketRoundTrip.SentIsFragmentation | Quack/Dependencies/ixwebsocket/IXWebSocketTransport.cpp:874-930 | sendData cuts messages as section 5.4 asks: first frame typed, the others continuations, fin on the last, no byte lost |
| WebSocketRoundTrip.RoundTrip | Quack/Dependencies/ixwebsocket/IXWebSocketTransport.cpp:461-1034 | the fragments of one binary or valid text message with heartbeats in between make the peer deliver exactly that message |
| WebSocketRoundTrip.SentBytesDispatch | Quack/Dependencies/ixwebsocket/IXWebSocketTransport.cpp:464-563 | the part of the frames that has left the sender never makes the receiver stop |
| WebSocketExchange.HandOver | Quack/Dependencies/ixwebsocket/IXWebSocketTransport.cpp:1036-1049 | heartbeats of other threads join the stream as whole frames in order, all of them unless the socket fails |
| WebSocketExchange.SendInterleaved | Quack/Dependencies/ixwebsocket/IXWebSocketTransport.cpp:874-930 | fragments with any heartbeats before, between and after them: the stream is a prefix of the interleaving, and all of it unless the socket fails |
| WebSocketExchange.StreamDelivered | Quack/Dependencies/ixwebsocket/IXWebSocketTransport.cpp:461-743 | any such interleaving, once it has arrived, is one delivery of the message and the answers to the heartbeats in order, and leaves the receiver ready for the next message |
| WebSocketExchange.StreamsDelivered | Quack/Dependencies/ixwebsocket/IXWebSocketTransport.cpp:461-743 | any number of messages with heartbeats between and within them, from any state between messages: the outcomes are the verdicts in order |
| WebSocketExchange.SendAll | Quack/Dependencies/ixwebsocket/IXWebSocketTransport.cpp:832-945 | the messages join the stream one after the other, all of them unless the socket fails |
| WebSocketExchange.Exchange | Quack/Dependencies/ixwebsocket/IXWebSocketTransport.cpp:461-1138 | sender, network and receiver together, from any state between messages, with any messages, heartbeats and later flushes: nothing is cut unless the socket failed, the receiver has seen exactly the bytes that arrived, and with nothing buffered or in flight every message was delivered once, in order, with the same bytes and kind |
| ConnectionGc.StepInv | Quack/Dependencies/ixwebsocket/IXSocketServer.cpp:176-480 | every step of acceptor, connection threads, callers of setTerminated, collector and owner, a second start included, keeps the invariant |
| ConnectionGc.NoLostWakeUp | Quack/Dependencies/ixwebsocket/IXSocketServer.cpp:440-480 | whenever the collector sleeps with the flag clear, for no listed connection has a call set the flag, a terminated one still has its call under way, and no stop is pending; with the flag set a notification is on its way |
| ConnectionGc.StepCalled | Quack/Dependencies/ixwebsocket/IXConnectionState.cpp:44-52 | setTerminated from any threads, overlapping or late: a terminated connection has had the flag set for it or has a call on its way there |
| ConnectionGc.JoinedOnce | Quack/Dependencies/ixwebsocket/IXSocketServer.cpp:248-268 | no thread is joined twice, before it finished, or while still listed |
| ConnectionGc.ExitsEmpty | Quack/Dependencies/ixwebsocket/IXSocketServer.cpp:202-233 | the collector exits, and stop returns, only with an empty list, no acceptor, and every thread ever started joined |
| ConnectionGc.StepNothingForgotten | Quack/Dependencies/ixwebsocket/IXSocketServer.cpp:418-480 | with the flag clear every connection for which a call has set it is still ahead of the scan, also one not yet registered |
| ConnectionGc.StepWakeUpComing | Quack/Dependencies/ixwebsocket/IXSocketServer.cpp:457-480 | a sleeping collector with the flag set has a notifier between its store and its notify_one |
| ConnectionGc.StepStopSeen | Quack/Dependencies/ixwebsocket/IXSocketServer.cpp:219-228 | a collector on its way into wait sees a stop request, and none sleeps once stop waits for it |
| ConnectionGc.CollectorDeterministic | Quack/Dependencies/ixwebsocket/IXSocketServer.cpp:440-463 | the collector has one step at most, and none exactly when it waits for the list, a thread or a notification, or is gone |
| ConnectionGc.CollectorWorks | Quack/Dependencies/ixwebsocket/IXSocketServer.cpp:248-463 | every step of the collector of a running server brings it nearer to its sleep |
| ConnectionGc.OthersAddWork | Quack/Dependencies/ixwebsocket/IXSocketServer.cpp:300-480 | a step of any other thread gives it one more round at most |
| ConnectionGc.ScanCollects | Quack/Dependencies/ixwebsocket/IXSocketServer.cpp:248-268 | a scan that no other thread interferes with joins the finished threads in list order and keeps the others |
| ConnectionGc.AcceptorHeldUp | Quack/Dependencies/ixwebsocket/IXSocketServer.cpp:248-268 | an acceptor about to register is held up, the collector having no step to take, if and only if the collector has called join on a thread that has not returned |
| ConnectionGc.StopHeldUp | Quack/Dependencies/ixwebsocket/IXSocketServer.cpp:202-216 | a stop that waits for the acceptor is held up if and only if, besides, the acceptor is about to register |
| ConnectionGc.StopCanBeHeldUp | Quack/Dependencies/ixwebsocket/IXSocketServer.cpp:248-268 | a run into that state: one connection marked as terminated by another thread while its own runs on |
| ConnectionGc.FinishedAreCollected | Quack/Dependencies/ixwebsocket/IXSocketServer.cpp:440-480 | over every interleaving in a running server the collector takes a bounded number of steps, and once the other threads are quiet it has a step to take until exactly the threads that have returned are joined |
| ConnectionGc.StopCompletes | Quack/Dependencies/ixwebsocket/IXSocketServer.cpp:217-229 | over every interleaving, once every connection thread has returned the collector takes a bounded number of steps and has one to take until it exits, and then stop can return |
| Base64.EncodeInto | Quack/Dependencies/base64/base64.hpp:498-557 | the buffer written through the cursor is the encoding of section 4 of RFC 4648 |
| Base64.TempBad | Quack/Dependencies/base64/base64.hpp:612-617 | one comparison of the combined word finds a bad character in any place |
| Base64.TempGood | Quack/Dependencies/base64/base64.hpp:607-627 | the lowest bytes of the word are the bytes of the group |
| Base64.CountPadding | Quack/Dependencies/base64/base64.hpp:586-587 | how many of the last four characters are padding, wherever they stand |
| Base64.DecodeInto | Quack/Dependencies/base64/base64.hpp:569-681 | the bytes of the groups, or the error for size, padding or character |
| Base64.DecodeCons | Quack/Dependencies/base64/base64.hpp:600-628 | decoding goes group by group |
| Base64.RoundTrip | Quack/Dependencies/base64/base64.hpp:498-681 | from_base64(to_base64(x)) = x for every byte string |
| Base64.Canonical | Quack/Dependencies/base64/base64.hpp:569-681 | an accepted text is the encoding of its bytes if and only if its unused bits are zero |
| Base64.UnusedBitsAccepted | Quack/Dependencies/base64/base64.hpp:656-673 | "Zh==" is accepted, decodes as "Zg==" does, and is not the encoding of that |
| Sha1.ChIsSelect | Quack/Dependencies/ixwebsocket/IXWebSocketHandshakeKeyGen.h:63-75 | the choice written with two xors is Ch of FIPS 180-4 |
| Sha1.MajIsVote | Quack/Dependencies/ixwebsocket/IXWebSocketHandshakeKeyGen.h:82-88 | the majority written with or and and is Maj of FIPS 180-4 |
| Sha1.ScheduleNext | Quack/Dependencies/ixwebsocket/IXWebSocketHandshakeKeyGen.h:53-56 | the sixteen words in the circular buffer always suffice for the next word of the 80-word schedule |
| Sha1.Rotates | Quack/Dependencies/ixwebsocket/IXWebSocketHandshakeKeyGen.h:58-95 | two assignments at rotating indices are one step on the five working variables |
| Sha1.Loop1 | Quack/Dependencies/ixwebsocket/IXWebSocketHandshakeKeyGen.h:63-68 | steps 0 to 15 |
| Sha1.Loop2 | Quack/Dependencies/ixwebsocket/IXWebSocketHandshakeKeyGen.h:69-75 | steps 16 to 19, with the indices shifted by one |
| Sha1.Loop3 | Quack/Dependencies/ixwebsocket/IXWebSocketHandshakeKeyGen.h:76-81 | steps 20 to 39 |
| Sha1.Loop4 | Quack/Dependencies/ixwebsocket/IXWebSocketHandshakeKeyGen.h:82-88 | steps 40 to 59 |
| Sha1.Loop5 | Quack/Dependencies/ixwebsocket/IXWebSocketHandshakeKeyGen.h:89-94 | steps 60 to 79 |
| Sha1.Sha1InPlace | Quack/Dependencies/ixwebsocket/IXWebSocketHandshakeKeyGen.h:100-109 | for every state and block the new hash is that of section 6.1.2 of FIPS 180-4 |
| Sha1.TwoHashes | Quack/Dependencies/ixwebsocket/IXWebSocketHandshakeKeyGen.h:134-159 | the two blocks built by hand are the padded message of 60 bytes |
| Sha1.Base64Of20 | Quack/Dependencies/ixwebsocket/IXWebSocketHandshakeKeyGen.h:111-125 | the base64 of 20 bytes |
| Sha1.KeyBlock | Quack/Dependencies/ixwebsocket/IXWebSocketHandshakeKeyGen.h:135-156 | the first block is the key, the GUID of RFC 6455 and the padding marker |
| Sha1.Generate | Quack/Dependencies/ixwebsocket/IXWebSocketHandshakeKeyGen.h:128-170 | for every key of 24 characters without NUL its accept value of section 4.2.2 of RFC 6455; for others that of what strncpy made of it |
| BumpAllocator.InPageSound | Quack/Dependencies/Luau/Ast/Allocator.cpp:41-50 | a block taken behind the used part of the first page is inside it and apart from all others |
| BumpAllocator.NewPageSound | Quack/Dependencies/Luau/Ast/Allocator.cpp:52-63 | a block at the start of a new page, oversized or not, is inside it and apart from all others |
| BumpAllocator.NeverWraps | Quack/Dependencies/Luau/Ast/Allocator.cpp:43-45 | no sum wraps for sizes that leave room above the highest page |
| BumpAllocator.HugeSizeWraps | Quack/Dependencies/Luau/Ast/Allocator.cpp:43-48 | a fresh page passes the test for a size of 2^64 - 8, and the block does not fit it |
| BumpAllocator.Allocator.constructor | Quack/Dependencies/Luau/Ast/Allocator.cpp:8-13 | one page, live from now on, or none and one refusal of the heap; no blocks |
| BumpAllocator.Allocator.Move | Quack/Dependencies/Luau/Ast/Allocator.cpp:15-21 | pages and blocks change hands and the source can still allocate |
| BumpAllocator.Allocator.FromRoot | Quack/Dependencies/Luau/Ast/Allocator.cpp:41-50 | taken from the first page exactly when the wrapped test passes |
| BumpAllocator.Allocator.FromNewPage | Quack/Dependencies/Luau/Ast/Allocator.cpp:52-63 | one page more, and the block in it unless the page size wraps |
| BumpAllocator.Allocator.Allocate | Quack/Dependencies/Luau/Ast/Allocator.cpp:37-64 | the block is inside a live page if and only if no sum wraps; then it is 8-aligned and disjoint from every earlier block |
| BumpAllocator.Allocator.Destroy | Quack/Dependencies/Luau/Ast/Allocator.cpp:23-35 | the pages are freed in list order, each exactly once |
| BumpAllocator.AllocateStep | Quack/Dependencies/Luau/Ast/Allocator.cpp:37-64 | one allocate whose sums fit 64 bits, among any allocators on one heap: the block is apart from every block of every one of them, and their pages stay apart |
| BumpAllocator.MoveStep | Quack/Dependencies/Luau/Ast/Allocator.cpp:15-21 | a move among them hands pages and blocks of one allocator to a new one, and leaves every other as it was |
| BumpAllocator.Use | Quack/Dependencies/Luau/Ast/Allocator.cpp:8-64 | over any allocations and moves up to the first whose sums do not fit 64 bits, on moved-from allocators too: one result per call, the successes in order pairwise disjoint, each allocator holding exactly those that calls and moves gave it, one bad_alloc per refusal, and no page lost; sizes that leave room above the highest page never stop it |
| BumpAllocator.DestroyAll | Quack/Dependencies/Luau/Ast/Allocator.cpp:23-35 | the destructors of several allocators are independent: every page of every one is freed, in order, once |
| BumpAllocator.Life | Quack/Dependencies/Luau/Ast/Allocator.cpp:8-64 | such a run and then all destructors: every block a call returned is aligned, inside a page and apart from the others, the pages are apart and each is freed once, and the heap is left as it was |

## Left out

- Quack/Source: process attach, offsets, HTTP and JSON relaying; Windows calls without algorithmic content.
- BLAKE3 compression, the SIMD kernels and CPU detection: the compression function is a parameter and the kernels are a degree; `hash_many` is modelled in its portable form.
- BLAKE3 representation: the stack and the arrays of chaining values are arrays of 32-byte values rather than flat bytes, flags are a set, key and flags together are a mode, and counters are unbounded below the limit of 2^64 input bytes.
- `blake3_hasher_update_tbb`: the two recursive calls run one after the other.
- XXH3 for at most 240 bytes, its rounds, scrambles and final mixing, and the 128-bit variant: parameters of the streaming theorems; concrete only in `XxhLanes`.
- XXH32 and XXH64 rounds, `mergeAccs` and `finalize`: parameters; the fields that the two states share are one object.
- XxhClassic.State64.Update: total input below 2^64 bytes, beyond which the one-shot function cannot be called.
- Reading 64-bit lanes from memory in `XxhLanes`: a stripe is given as eight words.
- Per-message deflate: compression is off, so rsv1 is an error.
- WebSocket closing: CLOSE frames, `close` and failed polls are events; ready states on the receiving side, close codes, timeouts and the closing handshake depend on clocks and threads.
- WebSocketReceiver.Session: assumes a stream without the errors that make dispatch return (`StopsExactly` says which), since those leave the frame in the buffer and wait for the close.
- WebSocketSender.Sender.SendData: progress callbacks are pure functions, and the answers of `isReadyToWrite` during a flush are given in advance.
- WebSocketReceiver.Receiver.DispatchFrame: what a CLOSE frame does to ready state, close code and socket is one event, because the closing handshake depends on clocks and threads.
- Wire size and the error flag of message callbacks, and the masking key from the clock: the key is a parameter.
- ConnectionGc: the collector is modelled in its steps, not as an object; connection threads are assumed to call `setTerminated` before they return, as the WebSocket and HTTP servers do; the maximum number of connections and accept errors are not modelled.
- ConnectionGc.FinishedAreCollected: bounds the steps and shows that one is enabled, as `StopCompletes` does; that the scheduler takes an enabled step is not modelled.
- `macaron::Base64`, SHA-256, SHA-384 and SHA-512: close to what is modelled here, and easier.
- Base64 tables: given by their closed form, little-endian; `decode_into` from iterators and other buffer types are wrappers.
- SHA-1 output buffer: returned as a sequence of 28 bytes.
- BumpAllocator: the page list is a sequence with the root first instead of linked headers; `operator new` serves regions from a heap whose top is below the last 64 KiB of the address space, and `bad_alloc` leaves the allocator as it was; from the constructor it leaves one without pages instead of none.
