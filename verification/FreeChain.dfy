/** The chunked free list (FILESYS.C, MKFS.C, FSCK2.C). The superblock holds the newest
    chunk, up to 50 block numbers; the oldest entry of a chunk names the block that
    stores the previous chunk, or is 0 at the end. As a whole it is a stack. */
module FreeChains {
  import opened Basics
  import opened Blocks

  const CHUNK := 50

  /** The blocks of one device. */
  type Store = imap<int, Block>

  ghost predicate IsStore(d: Store) {
    forall b :: b in d <==> 0 <= b < 65536
  }

  /** A chunk: the count word and the 50 entries that follow it in the superblock. */
  datatype Chunk = Chunk(nfree: int, free: seq<nat>)

  function StoredChunk(b: Block): Chunk {
    Chunk(Word(b, 0), Words(b, 1, CHUNK))
  }

  /** `bcopy` of the 51 words of a chunk over the front of a block. */
  function StoreChunk(c: Chunk, b: Block): Block
    requires 0 <= c.nfree < 65536 && |c.free| == CHUNK && AreWords(c.free)
  {
    PutWords(b, 0, [c.nfree] + c.free)
  }

  lemma StoredChunkOfStore(c: Chunk, b: Block)
    requires 0 <= c.nfree < 65536 && |c.free| == CHUNK && AreWords(c.free)
    ensures StoredChunk(StoreChunk(c, b)) == c
  {
    var ws := [c.nfree] + c.free;
    WordsAfterPut(b, 0, ws);
    assert Words(StoreChunk(c, b), 1, CHUNK) == c.free;
  }

  /** The stack (bottom first) that a chunk and the chunks behind it represent. */
  ghost predicate Chain(d: Store, c: Chunk, stack: seq<nat>)
    requires IsStore(d)
    decreases |stack|
  {
    && |c.free| == CHUNK && 1 <= c.nfree <= CHUNK && AreWords(c.free)
    && if c.free[0] == 0 then
         stack == c.free[1..c.nfree]
       else
         && c.nfree <= |stack|
         && stack[|stack| - c.nfree..] == c.free[..c.nfree]
         && Chain(d, StoredChunk(d[c.free[0]]), stack[..|stack| - c.nfree])
  }

  /** A stack of distinct data blocks. */
  predicate IsFreeStack(stack: seq<nat>, isize: nat, fsize: nat) {
    NoDup(stack) && forall i :: 0 <= i < |stack| ==> isize <= stack[i] < fsize
  }

  /** The chain depends only on the blocks that are on it. */
  lemma {:induction false} ChainFrame(d: Store, e: Store, c: Chunk, stack: seq<nat>)
    requires IsStore(d) && IsStore(e) && Chain(d, c, stack)
    requires forall i :: 0 <= i < |stack| && stack[i] in d ==> d[stack[i]] == e[stack[i]]
    ensures Chain(e, c, stack)
    decreases |stack|
  {
    if c.free[0] != 0 {
      var k := |stack| - c.nfree;
      assert stack[k] == stack[k..][0] == c.free[0];
      ChainFrame(d, e, StoredChunk(d[c.free[0]]), stack[..k]);
    }
  }

  /** `--nfree` when another entry stays: the top of the stack comes off. */
  lemma PopTop(d: Store, c: Chunk, stack: seq<nat>)
    requires IsStore(d) && Chain(d, c, stack) && c.nfree > 1
    ensures |stack| > 0 && stack[|stack| - 1] == c.free[c.nfree - 1]
    ensures Chain(d, c.(nfree := c.nfree - 1), stack[..|stack| - 1])
  {
    var n := |stack|;
    if c.free[0] == 0 {
      assert stack[..n - 1] == c.free[1..c.nfree - 1];
    } else {
      assert stack[n - 1] == stack[n - c.nfree..][c.nfree - 1];
      assert stack[..n - 1][n - c.nfree..] == c.free[..c.nfree - 1];
      assert stack[..n - 1][..n - c.nfree] == stack[..n - c.nfree];
    }
  }

  /** The last entry of a chunk: the block named by it holds the chunk to go on with. */
  lemma PopLast(d: Store, c: Chunk, stack: seq<nat>)
    requires IsStore(d) && Chain(d, c, stack) && c.nfree == 1
    ensures c.free[0] == 0 <==> stack == []
    ensures stack != [] ==>
              stack[|stack| - 1] == c.free[0] && Chain(d, StoredChunk(d[c.free[0]]), stack[..|stack| - 1])
  {
    if c.free[0] != 0 {
      assert stack[|stack| - 1] == stack[|stack| - 1..][0];
    }
  }

  /** Room in the superblock: the freed block goes on top. */
  lemma PushTop(d: Store, c: Chunk, stack: seq<nat>, blk: nat)
    requires IsStore(d) && Chain(d, c, stack) && c.nfree < CHUNK && blk < 65536
    ensures Chain(d, Chunk(c.nfree + 1, c.free[c.nfree := blk]), stack + [blk])
  {
    var c', stack' := Chunk(c.nfree + 1, c.free[c.nfree := blk]), stack + [blk];
    if c.free[0] == 0 {
      assert stack' == c'.free[1..c'.nfree];
    } else {
      var k := |stack| - c.nfree;
      assert stack'[k..] == stack[k..] + [blk] == c'.free[..c'.nfree];
      assert stack'[..k] == stack[..k];
    }
  }

  /** A full superblock: its chunk moves into the freed block, which starts a new one. */
  lemma PushSpill(d: Store, c: Chunk, stack: seq<nat>, blk: nat, b: Block)
    requires IsStore(d) && Chain(d, c, stack) && c.nfree == CHUNK && 0 < blk < 65536
    requires forall i :: 0 <= i < |stack| ==> stack[i] != blk
    ensures Chain(d[blk := StoreChunk(c, b)], Chunk(1, c.free[0 := blk]), stack + [blk])
  {
    var e := d[blk := StoreChunk(c, b)];
    StoredChunkOfStore(c, b);
    ChainFrame(d, e, c, stack);
    assert (stack + [blk])[|stack|..] == [blk];
    assert (stack + [blk])[..|stack|] == stack;
    assert c.free[0 := blk][..1] == [blk];
  }

  /** The block to take off a chunk, and the chunk that is left: the `s_nfree` side of
      allocation, kept apart from the device. */
  lemma TopOfChain(d: Store, c: Chunk, stack: seq<nat>, isize: nat, fsize: nat)
    requires IsStore(d) && Chain(d, c, stack) && 0 < isize < fsize < 65536 && IsFreeStack(stack, isize, fsize)
    ensures 1 <= c.nfree <= CHUNK == |c.free|
    ensures c.free[c.nfree - 1] == 0 <==> stack == []
    ensures stack != [] ==> stack[|stack| - 1] in stack && isize <= stack[|stack| - 1] < fsize
    ensures stack == [] ==> c.nfree == 1
    ensures stack != [] ==>
      var newno := c.free[c.nfree - 1];
      && newno == stack[|stack| - 1]
      && Chain(d, if c.nfree == 1 then StoredChunk(d[newno]) else c.(nfree := c.nfree - 1), stack[..|stack| - 1])
  {
    if c.nfree == 1 {
      PopLast(d, c, stack);
    } else {
      PopTop(d, c, stack);
    }
  }

  lemma ChunkFull(d: Store, c: Chunk, stack: seq<nat>)
    requires IsStore(d) && Chain(d, c, stack)
    ensures 1 <= c.nfree <= CHUNK == |c.free| && AreWords(c.free)
  {
  }
}
