/** Building free lists and file systems (MKFS.C, and pass 2 of FSCK2.C), and fsck's own
    allocator: the chain on the disk holds exactly the blocks that are not in use. */
module MakeFs {
  import opened Basics
  import opened Blocks
  import opened FreeChains
  import opened BlockTrees
  import opened Offsets
  import opened FileIo

  const SMOUNTED := 12742
  const F_DIR_BITS := 0x4000
  const ALL_PERMS := 0x1FF

  const INODE_LIST := 50

  /** The superblock, behind its magic number. */
  datatype Super = Super(
    isize: nat, fsize: nat,
    nfree: nat, free: seq<nat>,      // the first chunk of the free list
    ninode: nat, inodes: seq<nat>,   // inodes known to be free
    fmod: nat, time: seq<nat>,
    tfree: nat, tinode: nat,         // how many blocks and inodes are free
    mntpt: nat)

  predicate SuperOk(f: Super) {
    && f.isize < 65536 && f.fsize < 65536 && f.nfree < 65536 && f.ninode < 65536
    && f.fmod < 65536 && f.tfree < 65536 && f.tinode < 65536 && f.mntpt < 65536
    && |f.free| == CHUNK && |f.inodes| == INODE_LIST && |f.time| == 2
    && AreWords(f.free) && AreWords(f.inodes) && AreWords(f.time)
  }

  /** Superblocks that differ in their free lists at most. */
  predicate SameRest(f: Super, g: Super) {
    g == f.(nfree := g.nfree, free := g.free, tfree := g.tfree)
  }

  function ChunkOf(f: Super): Chunk {
    Chunk(f.nfree, f.free)
  }

  function Zeros(n: nat): (z: seq<nat>)
    ensures |z| == n && forall i :: 0 <= i < n ==> z[i] == 0
  {
    seq<nat>(n, _ => 0)
  }

  /** The words of the superblock, as `struct filesys` lays them out. */
  function SuperWords(f: Super): (w: seq<nat>)
    requires SuperOk(f)
    ensures |w| == 111 && AreWords(w)
    ensures w[0] == SMOUNTED && w[1] == f.isize && w[2] == f.fsize && w[3] == f.nfree && w[4..54] == f.free
    ensures w[54] == f.ninode && w[55..105] == f.inodes && w[105] == f.fmod && w[106..108] == f.time
    ensures w[108] == f.tfree && w[109] == f.tinode && w[110] == f.mntpt
  {
    [SMOUNTED, f.isize, f.fsize, f.nfree] + f.free + [f.ninode] + f.inodes
      + [f.fmod] + f.time + [f.tfree, f.tinode, f.mntpt]
  }

  /** A block that holds the superblock, over what the memory behind it happens to be. */
  function SuperBlock(f: Super, junk: Block): Block
    requires SuperOk(f)
  {
    PutWords(junk, 0, SuperWords(f))
  }

  function SuperOf(b: Block): Super {
    Super(Word(b, 1), Word(b, 2), Word(b, 3), Words(b, 4, CHUNK), Word(b, 54), Words(b, 55, INODE_LIST),
          Word(b, 105), Words(b, 106, 2), Word(b, 108), Word(b, 109), Word(b, 110))
  }

  /** A part of the words put into a block. */
  lemma PartAfterPut(b: Block, junk: Block, w: seq<nat>, from: nat, n: nat)
    requires |w| <= 256 && AreWords(w) && b == PutWords(junk, 0, w) && from + n <= |w|
    ensures Words(b, from, n) == w[from..from + n]
  {
    hide PutWords, Word;
    WordsAfterPut(junk, 0, w);
  }

  /** The superblock reads back as it was written. */
  lemma SuperRoundTrip(f: Super, junk: Block)
    requires SuperOk(f)
    ensures Word(SuperBlock(f, junk), 0) == SMOUNTED && SuperOf(SuperBlock(f, junk)) == f
  {
    hide PutWords, Word, SuperWords;
    var b, w := SuperBlock(f, junk), SuperWords(f);
    WordsAfterPut(junk, 0, w);
    PartAfterPut(b, junk, w, 4, CHUNK);
    PartAfterPut(b, junk, w, 55, INODE_LIST);
    PartAfterPut(b, junk, w, 106, 2);
  }

  /** The blocks of [from, fsize) that are not marked, the highest first. */
  function Unmarked(bitmap: seq<bool>, from: nat): (r: seq<nat>)
    ensures forall b: nat :: b in r <==> from <= b < |bitmap| && !bitmap[b]
    decreases |bitmap| - from
  {
    if from >= |bitmap| then [] else Unmarked(bitmap, from + 1) + if bitmap[from] then [] else [from]
  }

  predicate Decreasing(s: seq<nat>) {
    forall i, j :: 0 <= i < j < |s| ==> s[i] > s[j]
  }

  lemma {:induction false} UnmarkedDecreases(bitmap: seq<bool>, from: nat)
    ensures Decreasing(Unmarked(bitmap, from))
    ensures |Unmarked(bitmap, from)| <= if from < |bitmap| then |bitmap| - from else 0
    decreases |bitmap| - from
  {
    if from < |bitmap| {
      UnmarkedDecreases(bitmap, from + 1);
      var rest := Unmarked(bitmap, from + 1);
      assert forall i :: 0 <= i < |rest| ==> rest[i] in rest;
    }
  }

  // A new file system.

  /** The n blocks from hi down. */
  function Descending(hi: nat, n: nat): (r: seq<nat>)
    requires n <= hi + 1
    ensures |r| == n && forall i :: 0 <= i < n ==> r[i] == hi - i
  {
    seq<nat>(n, i requires 0 <= i < n => hi - i)
  }

  lemma DescendingHas(hi: nat, n: nat, b: nat)
    requires n <= hi + 1
    ensures b in Descending(hi, n) <==> hi - n < b <= hi
  {
    if hi - n < b <= hi { assert Descending(hi, n)[hi - b] == b; }
  }

  /** The 32 words of an inode on the disk: mode, link count, owner, size, times, and
      block numbers, of which only the first is given. */
  function InodeWords(mode: nat, nlink: nat, blkno: nat, offset: nat, addr0: nat): (w: seq<nat>)
    requires mode < 65536 && nlink < 65536 && blkno < 65536 && offset < 65536 && addr0 < 65536
    ensures |w| == 32 && AreWords(w)
    ensures w[0] == mode && w[1] == nlink && w[4] == blkno && w[5] == offset && w[12] == addr0
    ensures forall i :: 13 <= i < 32 ==> w[i] == 0
  {
    [mode, nlink, 0, 0, blkno, offset] + Zeros(6) + [addr0] + Zeros(19)
  }

  function ModeOf(w: nat): Mode {
    match w / 4096
    case 8 => F_REG
    case 4 => F_DIR
    case 1 => F_PIPE
    case 6 => F_BDEV
    case 2 => F_CDEV
    case _ => F_NONE
  }

  /** Inode number ino of a device, as `i_open` reads it. */
  function InodeAt(d: Store, ino: nat): Dinode
    requires 2 + ino / 8 in d
  {
    var b, k := d[2 + ino / 8], 32 * (ino % 8);
    Dinode(ModeOf(Word(b, k)), Words(b, k + 12, 20), Off(Word(b, k + 4), Word(b, k + 5)), false)
  }

  function InodesAt(d: Store, isize: nat): (r: seq<Dinode>)
    requires IsStore(d) && 2 <= isize < 65536
    ensures |r| == 8 * (isize - 2) && forall i :: 0 <= i < |r| ==> r[i] == InodeAt(d, i)
  {
    seq<Dinode>(8 * (isize - 2), i requires 0 <= i < 8 * (isize - 2) => InodeAt(d, i))
  }

  /** The first inode block: the reserved inode 0 and the root directory. */
  function FirstInodes(isize: nat): Block
    requires isize < 65536
  {
    PutWords(ZeroBlock(), 0, InodeWords(65535, 1, 0, 0, 0) + InodeWords(F_DIR_BITS + ALL_PERMS, 3, 0, 32, isize))
  }

  /** The root directory's block: its entries "." and "..". */
  function RootEntries(): Block {
    PutWords(ZeroBlock(), 0, [ROOTINODE, 0x2E] + Zeros(6) + [ROOTINODE, 0x2E2E] + Zeros(6))
  }

  function RootDinode(isize: nat): Dinode {
    Dinode(F_DIR, [isize] + Zeros(19), Off(0, 32), false)
  }

  lemma ZeroWords(k: nat)
    requires k < 256
    ensures Word(ZeroBlock(), k) == 0
  {
  }

  /** Inodes 0 to 7 of a new file system. */
  lemma FirstInodesAre(d: Store, isize: nat, i: nat)
    requires IsStore(d) && isize < 65536 && i < 8 && d[2] == FirstInodes(isize)
    ensures if i == ROOTINODE then InodeAt(d, i) == RootDinode(isize) else InodeAt(d, i).mode == F_NONE
    ensures |InodeAt(d, i).addr| == 20 && AreWords(InodeAt(d, i).addr)
    ensures InodeAt(d, i).size.blkno == 0 && InodeAt(d, i).size.offset == if i == ROOTINODE then 32 else 0
    ensures Word(d[2], 33) == 3
  {
    hide PutWords, Word, InodeWords, ZeroBlock;
    var w := InodeWords(65535, 1, 0, 0, 0) + InodeWords(F_DIR_BITS + ALL_PERMS, 3, 0, 32, isize);
    WordsAfterPut(ZeroBlock(), 0, w);
    forall k: nat | 64 <= k < 256 ensures Word(d[2], k) == 0 { ZeroWords(k); }
    assert Word(d[2], 32 * i) == if i == 0 then 65535 else if i == 1 then 0x41FF else 0;
    assert Word(d[2], 32 * i + 4) == 0 && Word(d[2], 32 * i + 5) == if i == 1 then 32 else 0;
    if i == ROOTINODE {
      forall k | 0 <= k < 20 ensures Words(d[2], 44, 20)[k] == ([isize] + Zeros(19))[k] {
        assert Words(d[2], 44, 20)[k] == Word(d[2], 44 + k) == w[44 + k];
      }
      assert Words(d[2], 44, 20) == [isize] + Zeros(19);
    }
  }

  /** A block of zeros holds unused inodes. */
  lemma ZeroInodes(d: Store, i: nat)
    requires IsStore(d) && 2 + i / 8 < 65536 && d[2 + i / 8] == ZeroBlock()
    ensures InodeAt(d, i).mode == F_NONE && |InodeAt(d, i).addr| == 20 && AreWords(InodeAt(d, i).addr)
    ensures InodeAt(d, i).size.blkno == 0 && InodeAt(d, i).size.offset == 0
  {
    ZeroWords(32 * (i % 8));
    ZeroWords(32 * (i % 8) + 4);
    ZeroWords(32 * (i % 8) + 5);
  }

  /** The root directory's block in the place of the inodes, as with isize 2: no root. */
  lemma NoRoot(d: Store)
    requires IsStore(d) && d[2] == RootEntries()
    ensures InodeAt(d, ROOTINODE).mode == F_NONE
  {
    hide PutWords, Word, ZeroBlock;
    WordsAfterPut(ZeroBlock(), 0, [ROOTINODE, 0x2E] + Zeros(6) + [ROOTINODE, 0x2E2E] + Zeros(6));
    ZeroWords(32);
  }

  /** Which location the blocks of a new file system belong to. */
  function NewRoles(isize: nat, fsize: nat): map<nat, Loc>
    requires isize < fsize
  {
    var blocks := Descending(fsize - 1, fsize - isize);
    map b: nat | b in blocks :: if b == isize then Root(ROOTINODE, 0) else Free(fsize - 1 - b)
  }

  /** A disk with a root directory and all other blocks free is a file system. */
  lemma NewPartition(s: Fs)
    requires IsStore(s.d) && InodesOk(s.inodes) && 2 < s.isize < s.fsize < 65536
    requires |s.inodes| > ROOTINODE && s.inodes[ROOTINODE] == RootDinode(s.isize)
    requires forall i :: 0 <= i < |s.inodes| && i != ROOTINODE ==> s.inodes[i].mode == F_NONE
    requires s.stack == Descending(s.fsize - 1, s.fsize - 1 - s.isize) && s.role == NewRoles(s.isize, s.fsize)
    ensures Partition(s)
  {
    forall ino: nat, k: nat ensures RootAt(s.inodes, ino, k) == if ino == ROOTINODE && k == 0 then s.isize else 0 {}
    forall loc ensures At(s, loc) == match loc case Root(ino, k) => (if ino == ROOTINODE && k == 0 then s.isize else 0)
                                               case Free(p) => (if p < |s.stack| then s.fsize - 1 - p else 0)
                                               case _ => 0 {}
    forall b: nat
      ensures (b in s.role <==> s.isize <= b < s.fsize)
      ensures (b in s.role ==> s.role[b] == if b == s.isize then Root(ROOTINODE, 0) else Free(s.fsize - 1 - b))
    {
      DescendingHas(s.fsize - 1, s.fsize - s.isize, b);
    }
    forall loc ensures Owned(s, loc) {}
    forall b: nat ensures Located(s, b) {}
  }

  /** What `mkfs` makes, as a file system. */
  function NewFs(d: Store, isize: nat, fsize: nat): Fs
    requires IsStore(d) && 2 <= isize < fsize < 65536
  {
    Fs(d, InodesAt(d, isize), Descending(fsize - 1, fsize - 1 - isize), NewRoles(isize, fsize), isize, fsize)
  }

  /** The entries "." and ".." take 32 bytes. */
  lemma RootTail(k: nat)
    requires 32 <= k < 512
    ensures RootEntries()[k] == 0
  {
    hide Zeros;
  }

  /** Sizes are small and nothing is stored behind the ends of files. */
  lemma NewTails(s: Fs)
    requires FsShape(s) && |s.inodes| > ROOTINODE && s.inodes[ROOTINODE] == RootDinode(s.isize)
    requires forall i :: 0 <= i < |s.inodes| && i != ROOTINODE ==> s.inodes[i].mode == F_NONE
    requires s.d[s.isize] == RootEntries()
    ensures ZeroTails(s)
  {
    hide RootEntries, FsShape;
    forall i: nat, pos: nat | i < |s.inodes| && IsFile(s.inodes[i]) && Pos(s.inodes[i].size) <= pos
      ensures ByteAt(s, i, pos) == 0
    {
      RootByte(s, pos);
    }
  }

  lemma RootByte(s: Fs, pos: nat)
    requires FsShape(s) && |s.inodes| > ROOTINODE && s.inodes[ROOTINODE] == RootDinode(s.isize)
    requires s.d[s.isize] == RootEntries() && 32 <= pos
    ensures ByteAt(s, ROOTINODE, pos) == 0
  {
    hide RootEntries;
    var bn := pos / 512;
    if bn == 0 {
      RootTail(pos);
    } else {
      assert forall k :: 1 <= k < 20 ==> RootAt(s.inodes, ROOTINODE, k) == 0;
    }
  }

  class Builder {
    var d: Store
    var filsys: Super

    /** The free list in memory and on the disk represents the stack. */
    ghost predicate Builds(stack: seq<nat>)
      reads this
    {
      && IsStore(d) && SuperOk(filsys) && Chain(d, ChunkOf(filsys), stack)
      && filsys.tfree == |stack| && IsFreeStack(stack, filsys.isize, filsys.fsize)
    }

    constructor (d: Store, filsys: Super)
      ensures this.d == d && this.filsys == filsys
    {
      this.d, this.filsys := d, filsys;
    }

    /** The body of the loops of `mkfs` and `pass2` for a free block j. What a chunk is
        written over is memory behind the superblock. */
    method FreeOne(j: nat, junk: Block, ghost stack: seq<nat>)
      requires Builds(stack) && filsys.isize <= j < filsys.fsize && j !in stack && j > 0 && |stack| < 65535
      modifies this
      ensures Builds(stack + [j]) && SameRest(old(filsys), filsys)
      ensures forall b :: b in d && b != j ==> d[b] == old(d)[b]
    {
      hide WordAt, StoredChunk, StoreChunk, NoDup;
      StackGrows(stack, j);
      ChunkFull(d, ChunkOf(filsys), stack);
      if filsys.nfree == CHUNK {
        PushSpill(d, ChunkOf(filsys), stack, j, junk);
        d := d[j := StoreChunk(ChunkOf(filsys), junk)];
        filsys := filsys.(nfree := 0);
      } else {
        PushTop(d, ChunkOf(filsys), stack, j);
      }
      filsys := filsys.(tfree := filsys.tfree + 1);
      filsys := filsys.(free := filsys.free[filsys.nfree := j], nfree := filsys.nfree + 1);
    }

    lemma StackGrows(stack: seq<nat>, j: nat)
      requires Builds(stack) && filsys.isize <= j < filsys.fsize && j !in stack
      ensures IsFreeStack(stack + [j], filsys.isize, filsys.fsize)
    {
    }

    /** An empty free list, and an empty list of inodes. */
    method ClearFree()
      requires IsStore(d) && SuperOk(filsys)
      modifies this`filsys
      ensures Builds([]) && SameRest(old(filsys).(ninode := 0), filsys)
    {
      filsys := filsys.(ninode := 0, nfree := 1, free := filsys.free[0 := 0], tfree := 0);
    }

    /** `pass2`: the free list holds exactly the blocks not marked in the bitmap, and is
        on the disk with the superblock. */
    method Pass2(bitmap: seq<bool>, junk: Block)
      requires IsStore(d) && SuperOk(filsys) && 1 < filsys.isize < filsys.fsize == |bitmap|
      modifies this
      ensures Builds(Unmarked(bitmap, filsys.isize)) && SuperOf(d[1]) == filsys
      ensures SameRest(old(filsys).(ninode := 0), filsys)
      ensures forall b: nat :: b in d && b != 1 && b !in Unmarked(bitmap, filsys.isize) ==> d[b] == old(d)[b]
    {
      hide Chain, NoDup, SuperBlock, SuperOf, Unmarked;
      ClearFree();
      UnmarkedEnd(bitmap);
      var j := filsys.fsize - 1;
      while j >= filsys.isize
        invariant filsys.isize - 1 <= j < filsys.fsize && SameRest(old(filsys).(ninode := 0), filsys)
        invariant Builds(Unmarked(bitmap, j + 1))
        invariant forall b: nat :: b in d && b !in Unmarked(bitmap, filsys.isize) ==> d[b] == old(d)[b]
      {
        UnmarkedStep(bitmap, j);
        UnmarkedDecreases(bitmap, j + 1);
        if !bitmap[j] {
          FreeOne(j, junk, Unmarked(bitmap, j + 1));
        }
        j := j - 1;
      }
      WriteSuper(junk, Unmarked(bitmap, filsys.isize));
    }

    lemma UnmarkedEnd(bitmap: seq<bool>)
      ensures Unmarked(bitmap, |bitmap|) == []
    {
    }

    lemma UnmarkedStep(bitmap: seq<bool>, j: nat)
      requires j < |bitmap|
      ensures Unmarked(bitmap, j) == if bitmap[j] then Unmarked(bitmap, j + 1) else Unmarked(bitmap, j + 1) + [j]
    {
    }

    /** Writes the superblock, which is no part of the chain. */
    method WriteSuper(junk: Block, ghost stack: seq<nat>)
      requires Builds(stack) && filsys.isize > 1
      modifies this`d
      ensures Builds(stack) && SuperOf(d[1]) == filsys && d == old(d)[1 := SuperBlock(filsys, junk)]
    {
      hide NoDup, SuperOf, SuperBlock;
      SuperRoundTrip(filsys, junk);
      ChainFrame(d, d[1 := SuperBlock(filsys, junk)], ChunkOf(filsys), stack);
      d := d[1 := SuperBlock(filsys, junk)];
    }

    /** `blk_alloc0`, fsck's allocator: the top of the stack, or 0 when it is empty. */
    method BlkAlloc0(junk: Block, ghost stack: seq<nat>) returns (newno: nat)
      requires Builds(stack) && 1 < filsys.isize < filsys.fsize
      modifies this
      ensures stack == [] ==> newno == 0 && Builds([]) && d == old(d)
      ensures stack != [] ==> newno == stack[|stack| - 1] && Builds(stack[..|stack| - 1]) && SuperOf(d[1]) == filsys
      ensures forall b: nat :: b in d && b != 1 ==> d[b] == old(d)[b]
      ensures SameRest(old(filsys), filsys)
    {
      hide Chain, NoDup, SuperBlock, SuperOf, StoredChunk;
      TopOfChain(d, ChunkOf(filsys), stack, filsys.isize, filsys.fsize);
      filsys := filsys.(nfree := filsys.nfree - 1);
      newno := filsys.free[filsys.nfree];
      if newno == 0 {
        filsys := filsys.(nfree := filsys.nfree + 1);
        return;
      }
      if filsys.nfree == 0 {
        var c := StoredChunk(d[newno]);
        filsys := filsys.(nfree := c.nfree, free := c.free);
      }
      ChunkFull(d, ChunkOf(filsys), stack[..|stack| - 1]);
      filsys := filsys.(tfree := filsys.tfree - 1);
      if newno < filsys.isize || newno >= filsys.fsize {
        assert false;
      }
      StackShrinks(stack);
      WriteSuper(junk, stack[..|stack| - 1]);
    }

    lemma StackShrinks(stack: seq<nat>)
      requires IsFreeStack(stack, filsys.isize, filsys.fsize) && stack != []
      ensures IsFreeStack(stack[..|stack| - 1], filsys.isize, filsys.fsize)
    {
    }

    method ZeroBlocks(isize: nat)
      requires IsStore(d) && isize < 65536
      modifies this`d
      ensures IsStore(d) && forall b :: 0 <= b < isize ==> d[b] == ZeroBlock()
    {
      for j := 0 to isize
        invariant IsStore(d) && forall b :: 0 <= b < j ==> d[b] == ZeroBlock()
      {
        d := d[j := ZeroBlock()];
      }
    }

    /** The loop of `mkfs` that builds the free list. */
    method FreeAbove(isize: nat, junk: Block)
      requires Builds([]) && filsys.isize == isize < filsys.fsize && 0 < isize
      modifies this
      ensures SameRest(old(filsys), filsys)
      ensures Builds(Descending(filsys.fsize - 1, filsys.fsize - 1 - isize))
      ensures forall b :: 0 <= b < isize ==> d[b] == old(d)[b]
    {
      hide Chain, NoDup;
      ghost var fsize, stack: seq<nat> := filsys.fsize, [];
      var j := filsys.fsize - 1;
      while j > isize
        invariant isize <= j < fsize && SameRest(old(filsys), filsys)
        invariant |stack| == fsize - 1 - j && forall i :: 0 <= i < |stack| ==> stack[i] == fsize - 1 - i
        invariant Builds(stack)
        invariant forall b :: 0 <= b < isize ==> d[b] == old(d)[b]
      {
        FreeOne(j, junk, stack);
        stack := stack + [j];
        j := j - 1;
      }
      assert stack == Descending(fsize - 1, fsize - 1 - isize);
    }

    /** `mkfs`: the free list holds all data blocks but the one of the root directory, the
        highest first, and the disk is a file system, but for isize 2: then the root
        directory's block is written over the root inode. */
    method Mkfs(fsize: nat, isize: nat, junk: Block)
      requires IsStore(d) && SuperOk(filsys) && 2 <= isize < fsize < 65536
      modifies this
      ensures Builds(Descending(fsize - 1, fsize - 1 - isize)) && filsys.isize == isize && filsys.fsize == fsize
      ensures filsys.ninode == 0 && filsys.tinode == (8 * (isize - 2) - 2) % 65536
      ensures SuperOf(d[1]) == filsys && d[isize] == RootEntries()
      ensures InodeAt(d, ROOTINODE).mode == F_DIR <==> isize != 2
      ensures isize != 2 ==>
                && InodeAt(d, ROOTINODE) == RootDinode(isize) && Word(d[2], 33) == 3
                && Partition(NewFs(d, isize, fsize)) && SizesOk(InodesAt(d, isize)) && ZeroTails(NewFs(d, isize, fsize))
    {
      hide Chain, NoDup, SuperBlock, SuperOf, FirstInodes, RootEntries, RootDinode, Partition, InodeAt, NewRoles,
           SizesOk, ZeroTails;
      ZeroBlocks(isize);
      filsys := filsys.(isize := isize, fsize := fsize, tinode := (8 * (isize - 2) - 2) % 65536);
      ClearFree();
      FreeAbove(isize, junk);
      ghost var stack := Descending(fsize - 1, fsize - 1 - isize);
      RootBlocks(stack);
      WriteSuper(junk, stack);
      if isize == 2 {
        NoRoot(d);
      } else {
        FirstInodesAre(d, isize, ROOTINODE);
        NewFileSystem(d, isize, fsize);
      }
    }

    /** The root inode and then the root directory are written. */
    method RootBlocks(ghost stack: seq<nat>)
      requires Builds(stack) && 2 <= filsys.isize < filsys.fsize && filsys.isize !in stack
      modifies this`d
      ensures Builds(stack) && d == old(d)[2 := FirstInodes(filsys.isize)][filsys.isize := RootEntries()]
    {
      hide NoDup, FirstInodes, RootEntries;
      ghost var e := d;
      d := d[2 := FirstInodes(filsys.isize)];
      d := d[filsys.isize := RootEntries()];
      ChainFrame(e, d, ChunkOf(filsys), stack);
    }

    lemma NewFileSystem(d: Store, isize: nat, fsize: nat)
      requires IsStore(d) && 2 < isize < fsize < 65536
      requires d[2] == FirstInodes(isize) && (forall b :: 3 <= b < isize ==> d[b] == ZeroBlock())
      requires d[isize] == RootEntries()
      ensures InodeAt(d, ROOTINODE).mode == F_DIR
      ensures Partition(NewFs(d, isize, fsize)) && SizesOk(InodesAt(d, isize)) && ZeroTails(NewFs(d, isize, fsize))
    {
      hide FirstInodes, InodeAt, Partition, NewRoles, ZeroBlock, RootEntries, ZeroTails;
      var inodes := InodesAt(d, isize);
      FirstInodesAre(d, isize, ROOTINODE);
      forall i | 0 <= i < |inodes|
        ensures inodes[i].Ok() && (i == ROOTINODE ==> inodes[i] == RootDinode(isize))
        ensures (i != ROOTINODE ==> inodes[i].mode == F_NONE)
        ensures inodes[i].size.blkno == 0 && 0 <= inodes[i].size.offset <= 32
      {
        if i < 8 { FirstInodesAre(d, isize, i); } else { ZeroInodes(d, i); }
      }
      var s := NewFs(d, isize, fsize);
      NewPartition(s);
      PartitionShape(s);
      NewTails(s);
    }

    lemma PartitionShape(s: Fs)
      requires Partition(s)
      ensures FsShape(s)
    {
    }

    /** Allocating until nothing is left. */
    method Drain(junk: Block, ghost stack: seq<nat>) returns (got: seq<nat>)
      requires Builds(stack) && 1 < filsys.isize < filsys.fsize
      modifies this
      ensures |got| == |stack| && forall i :: 0 <= i < |got| ==> got[i] == stack[|stack| - 1 - i]
      ensures Builds([]) && SameRest(old(filsys), filsys)
    {
      hide Chain, NoDup, SuperOf;
      got := [];
      ghost var left := stack;
      assert stack[..|stack|] == stack;
      while true
        invariant |got| <= |stack| && left == stack[..|stack| - |got|]
        invariant Builds(left) && SameRest(old(filsys), filsys)
        invariant forall i :: 0 <= i < |got| ==> got[i] == stack[|stack| - 1 - i]
        decreases |left|
      {
        var newno := BlkAlloc0(junk, left);
        if newno == 0 {
          NotZero(left);
          return;
        }
        got := got + [newno];
        left := left[..|left| - 1];
      }
    }

    lemma NotZero(stack: seq<nat>)
      requires Builds(stack) || stack == []
      ensures stack != [] ==> stack[|stack| - 1] >= filsys.isize
    {
    }

    /** On a new file system, allocation gives all data blocks behind the root directory's,
        in increasing order, and then fails. */
    method MakeAndDrain(fsize: nat, isize: nat, junk: Block) returns (got: seq<nat>)
      requires IsStore(d) && SuperOk(filsys) && 2 <= isize < fsize < 65536
      modifies this
      ensures |got| == fsize - 1 - isize && forall i :: 0 <= i < |got| ==> got[i] == isize + 1 + i
    {
      hide Chain, NoDup, SuperOf, Partition, InodeAt, RootEntries, RootDinode, NewRoles;
      Mkfs(fsize, isize, junk);
      got := Drain(junk, Descending(fsize - 1, fsize - 1 - isize));
    }

    /** After pass 2, allocation gives the unmarked blocks in increasing order, all of
        them, and then fails. */
    method RebuildAndDrain(bitmap: seq<bool>, junk: Block) returns (got: seq<nat>)
      requires IsStore(d) && SuperOk(filsys) && 1 < filsys.isize < filsys.fsize == |bitmap|
      modifies this
      ensures forall i, j :: 0 <= i < j < |got| ==> got[i] < got[j]
      ensures forall b: nat :: b in got <==> old(filsys).isize <= b < |bitmap| && !bitmap[b]
    {
      hide Chain, NoDup, SuperOf;
      Pass2(bitmap, junk);
      ghost var stack := Unmarked(bitmap, filsys.isize);
      got := Drain(junk, stack);
      UnmarkedDecreases(bitmap, filsys.isize);
      forall b: nat ensures b in got <==> b in stack {
        if b in stack {
          var i :| 0 <= i < |stack| && stack[i] == b;
          assert got[|stack| - 1 - i] == b;
        }
      }
    }
  }
}
