/** chunk_state: the incremental state of one chunk. */
module Blake3Chunk {
  import opened MerkleTree
  import opened Octets
  import opened Blake3Spec

  /** Only the bytes of the blocks already compressed matter. */
  lemma {:induction false} CvAfterPrefix(m: Mode, counter: nat, a: Bytes, b: Bytes, n: nat)
    requires 64 * n <= |a| && a <= b
    ensures CvAfter(m, counter, a, n) == CvAfter(m, counter, b, n)
  {
    if n > 0 {
      CvAfterPrefix(m, counter, a, b, n - 1);
      assert a[64 * (n - 1)..64 * n] == b[64 * (n - 1)..64 * n];
    }
  }

  /** The node of a chunk can be completed from any number of blocks already compressed. */
  lemma {:induction false} LastBlockAfter(m: Mode, counter: nat, chunk: Bytes, n: nat)
    requires n == 0 || 64 * n < |chunk|
    ensures LastBlock(m, counter, chunk, n, CvAfter(m, counter, chunk, n)) == ChunkNode(m, counter, chunk)
  {
    if n > 0 {
      LastBlockAfter(m, counter, chunk, n - 1);
    }
  }

  class ChunkState {
    const f: Compressor
    var cv: Cv
    var chunkCounter: nat
    const buf: array<Byte>
    var bufLen: nat
    var blocksCompressed: nat
    var flags: Flags
    /** The key the chunk started from, and the bytes it has taken in. */
    ghost var key: Cv
    ghost var fed: Bytes

    ghost function M(): Mode
      reads this`key, this`flags
    {
      Mode(f, key, flags)
    }

    /** The last block is held back until more bytes arrive, and is zero-padded in the buffer. */
    ghost predicate Valid()
      reads this, buf
    {
      && buf.Length == 64
      && bufLen <= 64
      && |fed| == 64 * blocksCompressed + bufLen <= 1024
      && (bufLen == 0 ==> fed == [])
      && buf[..] == Pad(fed[64 * blocksCompressed..])
      && cv == CvAfter(M(), chunkCounter, fed, blocksCompressed)
    }

    /** chunk_state_init, on fresh storage. */
    constructor (f: Compressor, key: Cv, flags: Flags)
      ensures Valid() && fresh(buf)
      ensures this.f == f && this.key == key && this.flags == flags
      ensures chunkCounter == 0 && fed == []
    {
      this.f, this.cv, this.key, this.flags := f, key, key, flags;
      chunkCounter, bufLen, blocksCompressed := 0, 0, 0;
      buf := new Byte[64](_ => 0);
      fed := [];
      new;
      PadUnique([], buf[..]);
    }

    method ZeroBuf()
      requires buf.Length == 64
      modifies buf
      ensures buf[..] == Pad([])
    {
      forall i | 0 <= i < buf.Length {
        buf[i] := 0;
      }
      PadUnique([], buf[..]);
    }

    method Reset(key: Cv, chunkCounter: nat)
      requires buf.Length == 64
      modifies this, buf
      ensures Valid() && fed == []
      ensures this.key == key && this.chunkCounter == chunkCounter && flags == old(flags)
    {
      this.cv, this.key, this.chunkCounter := key, key, chunkCounter;
      blocksCompressed, bufLen := 0, 0;
      fed := [];
      ZeroBuf();
    }

    /** Moving an empty chunk to another position of the input. */
    method SetCounter(counter: nat)
      requires Valid() && fed == []
      modifies this`chunkCounter
      ensures Valid() && chunkCounter == counter
    {
      chunkCounter := counter;
    }

    method Len() returns (n: nat)
      requires Valid()
      ensures n == |fed|
    {
      n := 64 * blocksCompressed + bufLen;
    }

    /** chunk_state_fill_buf: as many bytes as fit. */
    method FillBuf(input: Bytes) returns (take: nat)
      requires buf.Length == 64 && bufLen <= 64
      requires buf[..] == Pad(buf[..bufLen])
      modifies this`bufLen, buf
      ensures take == (if |input| <= 64 - old(bufLen) then |input| else 64 - old(bufLen))
      ensures bufLen == old(bufLen) + take
      ensures buf[..] == Pad(old(buf[..bufLen]) + input[..take])
    {
      take := 64 - bufLen;
      if take > |input| {
        take := |input|;
      }
      ghost var was := buf[..];
      forall i | 0 <= i < take {
        buf[bufLen + i] := input[i];
      }
      bufLen := bufLen + take;
      forall k | 0 <= k < |was[..old(bufLen)] + input[..take]|
        ensures buf[k] == (was[..old(bufLen)] + input[..take])[k]
      {
        if k < old(bufLen) {
          assert buf[k] == was[k];
        } else {
          assert buf[k] == input[k - old(bufLen)];
        }
      }
      assert buf[..][..bufLen] == was[..old(bufLen)] + input[..take];
      PadUnique(was[..old(bufLen)] + input[..take], buf[..]);
    }

    method MaybeStartFlag() returns (flag: Flags)
      ensures flag == StartFlag(blocksCompressed)
    {
      flag := if blocksCompressed == 0 then {ChunkStart} else {};
    }

    /** The first p bytes of all are taken in: whole blocks compressed, the rest in the buffer. */
    ghost predicate At(all: Bytes, p: nat)
      reads this`cv, this`chunkCounter, this`bufLen, this`blocksCompressed, this`flags, this`key, buf
    {
      && buf.Length == 64
      && p <= |all| && bufLen <= 64
      && p == 64 * blocksCompressed + bufLen
      && buf[..] == Pad(all[64 * blocksCompressed..p])
      && cv == CvAfter(M(), chunkCounter, all, blocksCompressed)
    }

    /** Compresses the next full block of all. */
    method CompressBlock(block: Block, ghost all: Bytes)
      requires 64 * (blocksCompressed + 1) <= |all|
      requires block == all[64 * blocksCompressed..64 * (blocksCompressed + 1)]
      requires cv == CvAfter(M(), chunkCounter, all, blocksCompressed)
      modifies this`cv, this`blocksCompressed
      ensures blocksCompressed == old(blocksCompressed) + 1
      ensures cv == CvAfter(M(), chunkCounter, all, blocksCompressed)
    {
      var flag := MaybeStartFlag();
      cv := f.compress(cv, block, 64, chunkCounter, flags + flag);
      blocksCompressed := blocksCompressed + 1;
    }

    /** Fills the buffer with the bytes of all from p on. */
    method FillFrom(input: Bytes, ghost all: Bytes, ghost p: nat) returns (take: nat)
      requires At(all, p) && input == all[p..]
      modifies this`bufLen, buf
      ensures take <= |input| && At(all, p + take)
      ensures take < |input| ==> bufLen == 64
      ensures old(bufLen) + |input| <= 64 ==> take == |input|
      ensures bufLen >= old(bufLen)
      ensures old(bufLen) == 0 && input != [] ==> bufLen > 0
    {
      ghost var held := all[64 * blocksCompressed..p];
      assert buf[..bufLen] == held;
      take := FillBuf(input);
      assert held + input[..take] == all[64 * blocksCompressed..p + take];
    }

    /** The first step of an update: fill the buffer, and compress it when more bytes follow. */
    method UpdateBuffered(input: Bytes, ghost all: Bytes, ghost p: nat) returns (rest: Bytes, ghost p': nat)
      requires At(all, p) && input == all[p..] && bufLen > 0
      modifies this`cv, this`bufLen, this`blocksCompressed, buf
      ensures At(all, p') && rest == all[p'..]
      ensures if rest == [] then bufLen > 0 else bufLen == 0
    {
      var take := FillFrom(input, all, p);
      rest := input[take..];
      p' := p + take;
      if |rest| > 0 {
        CompressBlock(buf[..], all);
        bufLen := 0;
        ZeroBuf();
      }
    }

    /** The loop of an update: whole blocks while more bytes follow. */
    method UpdateBlocks(input: Bytes, ghost all: Bytes, ghost p: nat) returns (rest: Bytes, ghost p': nat)
      requires At(all, p) && input == all[p..] && (|input| > 64 ==> bufLen == 0)
      modifies this`cv, this`blocksCompressed
      ensures At(all, p') && rest == all[p'..] && |rest| <= 64
      ensures |input| <= 64 ==> rest == input && blocksCompressed == old(blocksCompressed)
      ensures |input| > 64 ==> rest != []
    {
      hide CvAfter, Pad;
      rest, p' := input, p;
      while |rest| > 64
        invariant At(all, p') && rest == all[p'..]
        invariant |rest| > 64 ==> bufLen == 0
        invariant |input| <= 64 ==> rest == input && blocksCompressed == old(blocksCompressed)
        invariant |input| > 64 ==> rest != []
      {
        CompressBlock(rest[..64], all);
        rest := rest[64..];
        p' := p' + 64;
      }
    }

    /** chunk_state_update. */
    method Update(input: Bytes)
      requires Valid() && |fed| + |input| <= 1024
      modifies this, buf
      ensures Valid() && fed == old(fed) + input
      ensures key == old(key) && flags == old(flags) && chunkCounter == old(chunkCounter)
    {
      hide CvAfter, Pad, At, Valid;
      var rest := input;
      ghost var all, p := fed + input, |fed|;
      FromTheEnd(all);
      if bufLen > 0 {
        rest, p := UpdateBuffered(rest, all, p);
      }
      rest, p := UpdateBlocks(rest, all, p);
      AtBounds(all, p);
      var take := FillFrom(rest, all, p);
      fed := all;
      AtTheEnd(all);
    }

    /** All bytes are taken in, and the last block is not compressed yet. */
    lemma AtTheEnd(all: Bytes)
      requires At(all, |all|) && fed == all && |all| <= 1024 && (bufLen == 0 ==> all == [])
      ensures Valid()
    {
      hide CvAfter, Pad;
      assert all[64 * blocksCompressed..|all|] == all[64 * blocksCompressed..];
    }

    lemma AtBounds(all: Bytes, p: nat)
      requires At(all, p)
      ensures p <= |all| && bufLen <= 64
    {
    }

    lemma FromTheEnd(all: Bytes)
      requires Valid() && fed <= all
      ensures At(all, |fed|) && (bufLen == 0 ==> fed == [])
    {
      hide CvAfter, Pad;
      CvAfterPrefix(M(), chunkCounter, fed, all, blocksCompressed);
      assert all[64 * blocksCompressed..|fed|] == fed[64 * blocksCompressed..];
    }

    /** chunk_state_output. */
    method Output() returns (n: Node)
      requires Valid()
      ensures n == ChunkNode(M(), chunkCounter, fed)
    {
      var flag := MaybeStartFlag();
      n := Node(cv, buf[..], bufLen, chunkCounter, flags + flag + {ChunkEnd});
      LastBlockAfter(M(), chunkCounter, fed, blocksCompressed);
    }
  }

  /** output_chaining_value. */
  method OutputChainingValue(f: Compressor, n: Node) returns (cv: CvBytes)
    ensures cv == Chain(f, n)
  {
    var words := f.compress(n.inputCv, n.block, n.blockLen, n.counter, n.flags);
    cv := f.store(words);
  }

  /** A chunk hashed on its own with a temporary chunk state, as in compress_chunks_parallel
      and in the update loop. */
  method HashChunk(m: Mode, counter: nat, chunk: Bytes) returns (cv: CvBytes)
    requires |chunk| <= 1024
    ensures cv == Chain(m.f, ChunkNode(m, counter, chunk))
  {
    var state := new ChunkState(m.f, m.key, m.flags);
    state.SetCounter(counter);
    state.Update(chunk);
    var output := state.Output();
    cv := OutputChainingValue(m.f, output);
    assert state.M() == m && state.fed == chunk;
  }
}
