/** The block layer of one mounted file system (FILESYS.C): allocation and freeing of
    blocks, the block map of a file, and truncation, over the buffer pool. */
module FileSystems {
  import opened Basics
  import opened Blocks
  import opened WriteCaches
  import opened BufferPools
  import opened FreeChains
  import opened BlockTrees
  import opened Truncations
  import opened Spaces

  const NULLBLK := 65535

  lemma SameBytesTransitive(s: Fs, t: Fs, u: Fs)
    requires FsShape(s) && FsShape(t) && FsShape(u) && SameBytes(s, t) && SameBytes(t, u)
    ensures SameBytes(s, u)
  {
    forall ino: nat, pos: nat ensures SameByte(s, u, ino, pos) {
      assert SameByte(s, t, ino, pos) && SameByte(t, u, ino, pos);
    }
  }

  /** Zeroing the block that came off the stack leaves the rest of the chain alone. */
  lemma PopKeepsChain(d: Store, c: Chunk, stack: seq<nat>, isize: nat, fsize: nat)
    requires IsStore(d) && stack != [] && IsFreeStack(stack, isize, fsize) && Chain(d, c, stack[..|stack| - 1])
    requires stack[|stack| - 1] < 65536
    ensures var e := d[stack[|stack| - 1] := ZeroBlock()]; IsStore(e) && Chain(e, c, stack[..|stack| - 1])
    ensures IsFreeStack(stack[..|stack| - 1], isize, fsize)
  {
    ChainFrame(d, d[stack[|stack| - 1] := ZeroBlock()], c, stack[..|stack| - 1]);
  }

  lemma PushKeepsStack(stack: seq<nat>, blk: nat, isize: nat, fsize: nat)
    requires IsFreeStack(stack, isize, fsize) && blk !in stack && isize <= blk < fsize
    ensures IsFreeStack(stack + [blk], isize, fsize)
  {
  }

  /** Inode tables that agree on everything but block numbers and dirty flags. */
  predicate SameInfo(a: seq<Dinode>, b: seq<Dinode>) {
    |a| == |b| && forall i :: 0 <= i < |a| ==> a[i].size == b[i].size && a[i].mode == b[i].mode
  }

  /** Inodes that are not as they were are marked dirty. */
  predicate Marked(a: seq<Dinode>, b: seq<Dinode>) {
    |a| == |b| && forall i :: 0 <= i < |a| ==> b[i] == a[i] || b[i].dirty
  }

  /** How many of the first n entries of an inode have no block. */
  function Holes(addr: seq<nat>, n: nat): nat
    requires n <= |addr|
  {
    if n == 0 then 0 else Holes(addr, n - 1) + if addr[n - 1] == 0 then 1 else 0
  }

  lemma {:induction false} HoleFilled(addr: seq<nat>, n: nat, k: nat, nb: nat)
    requires n <= |addr| && k < |addr| && addr[k] == 0 && nb != 0
    ensures Holes(addr, n) == Holes(addr[k := nb], n) + if k < n then 1 else 0
  {
    if n > 0 { HoleFilled(addr, n - 1, k, nb); }
  }

  /** Below an empty location everything is empty. */
  lemma EmptyBelow(s: Fs, loc: Loc, l: Loc)
    requires FsShape(s) && At(s, loc) == 0 && Under(l, loc)
    ensures At(s, l) == 0
  {
  }

  lemma WayUnder(l: Loc, loc: Loc)
    requires Under(l, loc) && !l.Free?
    ensures !loc.Free? && loc in WayTo(l) && WayTo(loc) <= WayTo(l)
  {
  }

  /** The state after nb came off the stack and was stored at a location. */
  ghost predicate Linked(s: Fs, t: Fs, at: Loc, nb: nat)
    requires FsShape(s)
  {
    && FsShape(t) && Partition(t) && SameBytes(s, t) && SameInfo(s.inodes, t.inodes)
    && s.stack != [] && nb == s.stack[|s.stack| - 1] && At(t, at) == nb && nb != 0 && Took(s, t, {at})
    && (forall l :: Under(l, at) && l != at ==> At(t, l) == 0)
  }

  lemma LinkedFacts(s: Fs, t: Fs, at: Loc, nb: nat)
    requires FsShape(s) && Linked(s, t, at, nb)
    ensures FsShape(t) && Partition(t) && SameBytes(s, t) && SameInfo(s.inodes, t.inodes) && At(t, at) == nb
    ensures Took(s, t, {at})
  {
  }

  lemma LinkIs(s: Fs, u: Fs, t: Fs, at: Loc)
    requires Partition(s) && FsShape(u) && FsShape(t) && s.stack != [] && At(s, at) == 0 && !at.Free?
    requires var nb := s.stack[|s.stack| - 1];
             && u == s.(stack := s.stack[..|s.stack| - 1], d := s.d[nb := ZeroBlock()])
             && Stored(u, t, at, nb) && t.stack == u.stack && t.role == s.role[nb := at]
             && t.isize == s.isize && t.fsize == s.fsize
    ensures Linked(s, t, at, s.stack[|s.stack| - 1])
  {
    LinkKeepsPartition(s, u, t, at);
    forall l | Under(l, at) && l != at ensures At(t, l) == 0 {
      EmptyBelow(s, at, l);
    }
  }

  lemma RootLinked(s: Fs, u: Fs, t: Fs, ino: nat, k: nat, nb: nat)
    requires Partition(s) && s.stack != [] && ino < |s.inodes| && s.inodes[ino].HasTree() && k < 20
    requires s.inodes[ino].addr[k] == 0 && nb == s.stack[|s.stack| - 1]
    requires u == s.(stack := s.stack[..|s.stack| - 1], d := s.d[nb := ZeroBlock()])
    requires t == u.(inodes := s.inodes[ino := s.inodes[ino].(addr := s.inodes[ino].addr[k := nb], dirty := true)],
                     role := s.role[nb := Root(ino, k)])
    ensures FsShape(t) && Linked(s, t, Root(ino, k), nb)
  {
    assert At(s, Free(|s.stack| - 1)) == nb && Owned(s, Free(|s.stack| - 1));
    LinkIs(s, u, t, Root(ino, k));
  }

  /** A block of pointers in use is not on the free stack. */
  lemma PointerNotFree(s: Fs, loc: Loc)
    requires Partition(s) && At(s, loc) != 0 && !loc.Free?
    ensures At(s, loc) !in s.stack && s.isize <= At(s, loc) < s.fsize && At(s, loc) != NULLBLK
  {
    assert Owned(s, loc);
    if At(s, loc) in s.stack { StackRole(s, At(s, loc)); }
  }

  lemma WordLinked(s: Fs, u: Fs, t: Fs, parent: Loc, i: nat, nb: nat)
    requires Partition(s) && s.stack != [] && Node(parent) && IsPointer(parent) && At(s, parent) != 0 && i < 256
    requires Word(s.d[At(s, parent)], i) == 0 && nb == s.stack[|s.stack| - 1]
    requires u == s.(stack := s.stack[..|s.stack| - 1], d := s.d[nb := ZeroBlock()])
    requires var p := At(s, parent);
             p in u.d && t == u.(d := u.d[p := PutWords(s.d[p], i, [nb])], role := s.role[nb := Child(parent, i)])
    ensures FsShape(t) && Linked(s, t, Child(parent, i), nb)
  {
    PointerNotFree(s, parent);
    assert At(s, Free(|s.stack| - 1)) == nb && Owned(s, Free(|s.stack| - 1));
    PopLocations(s, u, parent);
    LinkIs(s, u, t, Child(parent, i));
  }

  lemma StackInRange(s: Fs)
    requires FsShape(s)
    ensures forall b :: b in s.stack ==> s.isize <= b < s.fsize
  {
  }

  lemma SameInfoTransitive(a: seq<Dinode>, b: seq<Dinode>, c: seq<Dinode>)
    requires SameInfo(a, b) && SameInfo(b, c)
    ensures SameInfo(a, c)
  {
  }

  /** Taking a buffer and releasing it. */
  lemma HoldRoundTrip(holds: Holds, h: nat, hold: Hold)
    requires h !in holds
    ensures holds[h := hold] - {h} == holds && |holds[h := hold]| == |holds| + 1
  {
    assert holds[h := hold].Keys == holds.Keys + {h};
  }

  class FileSystem {
    const pool: BufferPool<Block>
    const dev: int
    const isize: nat
    const fsize: nat
    var nfree: int
    var free: seq<nat>
    var tfree: int
    var fmod: bool
    var inodes: seq<Dinode>   // c_node of every inode of the device
    var error: int            // udata.u_error

    ghost var d: Store
    ghost var stack: seq<nat>
    ghost var role: map<nat, Loc>

    ghost function Id(b: int): BlockId {
      BlockId(dev, b)
    }

    /** d is the device as the buffer pool presents it. */
    ghost predicate DevOk()
      reads this`d, pool, pool.cache
    {
      && pool.Valid() && IsDiskDev(dev) && IsStore(d) && IsPoolView(pool.view)
      && (forall b {:trigger Id(b)} {:trigger d[b]} :: 0 <= b < 65536 ==> d[b] == pool.view[Id(b)])
    }

    /** The superblock's free list represents the stack. */
    ghost predicate FreeOk()
      reads this`d, this`nfree, this`free, this`stack, this`tfree
    {
      && IsStore(d) && 0 < isize < fsize < 65536
      && Chain(d, Chunk(nfree, free), stack)
      && IsFreeStack(stack, isize, fsize)
      && tfree == |stack|
    }

    ghost function St(): Fs
      reads this`d, this`inodes, this`stack, this`role
    {
      Fs(d, inodes, stack, role, isize, fsize)
    }

    ghost predicate Valid()
      reads this, pool, pool.cache
    {
      DevOk() && FreeOk() && FsShape(St()) && Partition(St())
    }

    /** A file system found on a device: superblock, inodes and blocks that fit together. */
    constructor (pool: BufferPool<Block>, dev: int, s: Fs, c: Chunk)
      requires pool.Valid() && IsDiskDev(dev) && Partition(s) && Chain(s.d, c, s.stack)
      requires forall b :: 0 <= b < 65536 ==> BlockId(dev, b) in pool.view && s.d[b] == pool.view[BlockId(dev, b)]
      ensures Valid() && St() == s && this.pool == pool && this.dev == dev && error == 0
    {
      this.pool, this.dev, this.isize, this.fsize := pool, dev, s.isize, s.fsize;
      nfree, free, tfree, fmod, inodes, error := c.nfree, c.free, |s.stack|, false, s.inodes, 0;
      d, stack, role := s.d, s.stack, s.role;
    }

    /** No data block of this file system is held by anybody. */
    ghost predicate NoneHeld()
      reads pool`holds
    {
      forall b {:trigger Id(b)} :: isize <= b < fsize ==> Id(b) !in Names(pool.holds)
    }

    /** `bread` on this device. */
    method Grab(blk: nat, rewrite: int) returns (h: nat)
      requires DevOk() && blk < 65536 && Id(blk) !in Names(pool.holds) && |pool.holds| < NBUFS
      modifies this`d, pool, pool.cache
      ensures DevOk()
      ensures d == old(d)[blk := d[blk]] && (rewrite == 0 ==> d == old(d))
      ensures h !in old(pool.holds) && pool.holds == old(pool.holds)[h := Named(Id(blk), rewrite != 0)]
      ensures Names(pool.holds) == Names(old(pool.holds)) + {Id(blk)}
      ensures pool.peak == Max(old(pool.peak), |pool.holds|)
    {
      hide PoolOk, Coherent, SweepOwes, IsAddressMap, Names, Chain, NoDup, WordAt, ZeroBlock, StoredChunk,
           StoreChunk, Words, Word;
      h := pool.Bread(dev, blk, rewrite);
      d := d[blk := pool.view[Id(blk)]];
    }

    /** `bread` on this device for reading. */
    method Fetch(blk: nat) returns (h: nat)
      requires DevOk() && blk < 65536 && Id(blk) !in Names(pool.holds) && |pool.holds| < NBUFS
      modifies pool, pool.cache
      ensures DevOk()
      ensures h !in old(pool.holds) && pool.holds == old(pool.holds)[h := Named(Id(blk), false)]
      ensures Names(pool.holds) == Names(old(pool.holds)) + {Id(blk)} && |pool.holds| == |old(pool.holds)| + 1
      ensures pool.peak == Max(old(pool.peak), |pool.holds|)
    {
      hide PoolOk, Coherent, SweepOwes, IsAddressMap, Names;
      h := pool.Bread(dev, blk, 0);
    }

    /** The bytes of a held block. */
    method Load(h: nat) returns (b: Block)
      requires DevOk() && h in pool.holds && pool.holds[h].Named? && pool.holds[h].id.dev == dev
      ensures 0 <= pool.holds[h].id.blk < 65536 && b == d[pool.holds[h].id.blk]
    {
      hide PoolOk, Coherent, SweepOwes, IsAddressMap, Names, Chain, NoDup, WordAt, ZeroBlock, StoredChunk,
           StoreChunk, Words, Word;
      b := pool.Get(h);
      assert Id(pool.holds[h].id.blk) == pool.holds[h].id;
    }

    /** Changes the bytes of a held block and releases it dirty (`bawrite`). */
    method Store(h: nat, blk: nat, b: Block)
      requires DevOk() && h in pool.holds && pool.holds[h].Named? && pool.holds[h].id == Id(blk) && blk < 65536
      modifies this`d, pool, pool.cache
      ensures DevOk()
      ensures d == old(d)[blk := b]
      ensures pool.holds == old(pool.holds) - {h} && Names(pool.holds) == Names(old(pool.holds)) - {Id(blk)}
      ensures pool.peak == old(pool.peak)
    {
      hide PoolOk, Coherent, SweepOwes, IsAddressMap, Names, Chain, NoDup, WordAt, ZeroBlock, StoredChunk,
           StoreChunk, Words, Word;
      pool.Put(h, b);
      pool.Bfree(h, 1);
      d := d[blk := b];
    }

    /** `brelse` of an unchanged block. */
    method Brelse(h: nat)
      requires DevOk() && h in pool.holds && pool.holds[h].Named? && !pool.holds[h].edited
      modifies pool`hdr, pool`holds, pool.cache
      ensures DevOk()
      ensures pool.holds == old(pool.holds) - {h}
      ensures Names(pool.holds) == Names(old(pool.holds)) - {old(pool.holds)[h].id}
      ensures pool.peak == old(pool.peak)
    {
      hide PoolOk, Coherent, SweepOwes, IsAddressMap, Names, Chain, NoDup, WordAt, ZeroBlock, StoredChunk,
           StoreChunk, Words, Word;
      pool.Bfree(h, 0);
    }

    /** None of these blocks is held, and there is room to hold n more. */
    ghost predicate CanHold(blocks: seq<nat>, n: nat)
      reads pool`holds
    {
      |pool.holds| + n <= NBUFS && forall b :: b in blocks ==> Id(b) !in Names(pool.holds)
    }

    lemma DevIsStore()
      requires DevOk()
      ensures IsStore(d)
    {
    }

    /** Reads a block and lets it go. */
    method ReadBlock(blk: nat) returns (b: Block)
      requires DevOk() && blk < 65536 && Id(blk) !in Names(pool.holds) && |pool.holds| < NBUFS
      modifies pool, pool.cache
      ensures DevOk() && IsStore(d) && b == d[blk]
      ensures pool.holds == old(pool.holds) && pool.peak == Max(old(pool.peak), |pool.holds| + 1)
    {
      hide PoolOk, Coherent, SweepOwes, IsAddressMap, Names, Chain, NoDup, WordAt, ZeroBlock, StoredChunk,
           StoreChunk, Words, Word, DevOk;
      DevIsStore();
      var h := Fetch(blk);
      b := Load(h);
      Brelse(h);
      assert pool.holds == old(pool.holds);
    }

    /** A scratch block of zeros (`zerobuf`), taken and let go. */
    method ReadHole() returns (b: Block)
      requires DevOk() && |pool.holds| < NBUFS
      modifies pool, pool.cache
      ensures DevOk() && b == ZeroBlock()
      ensures pool.holds == old(pool.holds) && pool.peak <= Max(old(pool.peak), |pool.holds| + 1)
    {
      hide PoolOk, Coherent, SweepOwes, IsAddressMap, Names, Chain, NoDup, WordAt, ZeroBlock, StoredChunk,
           StoreChunk, Words, Word;
      var h := pool.ZeroBuf(ZeroBlock());
      b := pool.Get(h);
      pool.Bfree(h, 0);
      assert pool.holds == old(pool.holds);
    }

    /** Overwrites a block, which need not be read for it. */
    method WriteBlock(blk: nat, rewrite: int, b: Block)
      requires DevOk() && blk < 65536 && Id(blk) !in Names(pool.holds) && |pool.holds| < NBUFS
      modifies this`d, pool, pool.cache
      ensures DevOk() && d == old(d)[blk := b]
      ensures pool.holds == old(pool.holds) && pool.peak == Max(old(pool.peak), |pool.holds| + 1)
    {
      hide PoolOk, Coherent, SweepOwes, IsAddressMap, Names, Chain, NoDup, WordAt, ZeroBlock, StoredChunk,
           StoreChunk, Words, Word, DevOk;
      var h := Grab(blk, rewrite);
      Store(h, blk, b);
      assert pool.holds == old(pool.holds);
    }

    /** The first half of `blk_alloc`: takes a block number off the superblock, which is
        refilled from that block when it runs out. The "corrupt" exits are never taken. */
    method TakeTop() returns (newno: nat)
      requires DevOk() && FreeOk() && CanHold(stack, 1)
      modifies this`nfree, this`free, this`tfree, this`fmod, this`error, pool, pool.cache
      ensures DevOk()
      ensures pool.holds == old(pool.holds) && pool.peak <= Max(old(pool.peak), |pool.holds| + 1)
      ensures newno < 65536 && (newno == 0 <==> stack == []) && fmod
      ensures stack == [] ==> FreeOk() && error == ENOSPC
      ensures stack != [] ==>
                && newno == stack[|stack| - 1] && error == old(error) && tfree == |stack| - 1
                && IsStore(d) && Chain(d, Chunk(nfree, free), stack[..|stack| - 1])
    {
      hide PoolOk, Coherent, SweepOwes, IsAddressMap, Names, Chain, IsFreeStack, ZeroBlock, StoredChunk, StoreChunk,
           Words, Word, DevOk;
      TopOfChain(d, Chunk(nfree, free), stack, isize, fsize);
      fmod := true;
      if nfree <= 0 || nfree > CHUNK {
        assert false;
      }
      nfree := nfree - 1;
      newno := free[nfree];
      if newno == 0 {
        if tfree != 0 {
          assert false;
        }
        error := ENOSPC;
        nfree := nfree + 1;
        return;
      }
      if nfree == 0 {
        var b := ReadBlock(newno);
        var c := StoredChunk(b);
        nfree, free := c.nfree, c.free;
      }
      if tfree == 0 {
        assert false;
      }
      tfree := tfree - 1;
    }

    /** `blk_alloc`: takes the top block of the free stack and zeroes it, or reports
        that there is none. */
    method BlkAlloc() returns (newno: nat)
      requires DevOk() && FreeOk() && CanHold(stack, 1)
      modifies this`d, this`nfree, this`free, this`tfree, this`fmod, this`error, this`stack, pool, pool.cache
      ensures DevOk() && FreeOk()
      ensures pool.holds == old(pool.holds) && pool.peak <= Max(old(pool.peak), |pool.holds| + 1)
      ensures newno < 65536 && (newno == 0 <==> old(stack) == []) && fmod
      ensures old(stack) == [] ==> newno == 0 && stack == [] && d == old(d) && error == ENOSPC
      ensures old(stack) != [] ==>
                && newno == old(stack)[|old(stack)| - 1] && stack == old(stack)[..|old(stack)| - 1]
                && d == old(d)[newno := ZeroBlock()] && error == old(error)
    {
      hide PoolOk, Coherent, SweepOwes, IsAddressMap, Names, Chain, IsFreeStack, ZeroBlock, StoredChunk, StoreChunk,
           Words, Word, DevOk;
      newno := TakeTop();
      if newno == 0 {
        return;
      }
      PopKeepsChain(d, Chunk(nfree, free), stack, isize, fsize);
      WriteBlock(newno, 2, ZeroBlock());
      stack := stack[..|stack| - 1];
    }

    /** `blk_free`: the block becomes the top of the free stack. A full superblock is
        first moved into it. */
    method BlkFree(blk: nat)
      requires DevOk() && FreeOk()
      requires blk != 0 ==> isize <= blk < fsize && blk !in stack && CanHold([blk], 1)
      modifies this`d, this`nfree, this`free, this`tfree, this`fmod, this`stack, pool, pool.cache
      ensures DevOk() && FreeOk()
      ensures pool.holds == old(pool.holds) && pool.peak <= Max(old(pool.peak), |pool.holds| + 1)
      ensures blk == 0 ==> stack == old(stack) && d == old(d)
      ensures blk != 0 ==> stack == old(stack) + [blk] && d == old(d)[blk := d[blk]] && fmod
    {
      hide PoolOk, Coherent, SweepOwes, IsAddressMap, Names, Chain, IsFreeStack, ZeroBlock, StoredChunk, StoreChunk,
           Words, Word, DevOk;
      if blk == 0 {
        return;
      }
      fmod := true;
      assert blk in [blk];
      ChunkFull(d, Chunk(nfree, free), stack);
      PushKeepsStack(stack, blk, isize, fsize);
      if nfree == CHUNK {
        Spill(blk);
        nfree := 0;
      } else {
        PushTop(d, Chunk(nfree, free), stack, blk);
      }
      tfree := tfree + 1;
      free := free[nfree := blk];
      nfree := nfree + 1;
      stack := stack + [blk];
    }

    /** The spill in `blk_free`: the superblock's chunk goes to the freed block, whose
        other bytes are whatever its buffer held. */
    method Spill(blk: nat)
      requires DevOk() && IsStore(d) && Chain(d, Chunk(nfree, free), stack)
      requires nfree == CHUNK && 0 < blk < 65536 && blk !in stack
      requires Id(blk) !in Names(pool.holds) && |pool.holds| < NBUFS
      modifies this`d, pool, pool.cache
      ensures DevOk() && IsStore(d) && d == old(d)[blk := d[blk]]
      ensures Chain(d, Chunk(1, free[0 := blk]), stack + [blk])
      ensures pool.holds == old(pool.holds) && pool.peak <= Max(old(pool.peak), |pool.holds| + 1)
    {
      hide PoolOk, Coherent, SweepOwes, IsAddressMap, Names, Chain, IsFreeStack, ZeroBlock, StoredChunk, StoreChunk,
           Words, Word, DevOk;
      var h := Grab(blk, 1);
      var b := Load(h);
      ChunkFull(old(d), Chunk(nfree, free), stack);
      PushSpill(old(d), Chunk(nfree, free), stack, blk, b);
      Store(h, blk, StoreChunk(Chunk(nfree, free), b));
      assert pool.holds == old(pool.holds);
    }

    /** A block freed and allocated again: the same block comes back, zeroed, and the free
        stack is as before, also when the freed block took over a full chunk. */
    method FreeThenAlloc(blk: nat) returns (newno: nat)
      requires DevOk() && FreeOk() && isize <= blk < fsize && blk !in stack && CanHold(stack + [blk], 1)
      modifies this`d, this`nfree, this`free, this`tfree, this`fmod, this`error, this`stack, pool, pool.cache
      ensures DevOk() && FreeOk() && pool.holds == old(pool.holds)
      ensures newno == blk && stack == old(stack) && tfree == old(tfree) && error == old(error)
      ensures d == old(d)[blk := ZeroBlock()]
    {
      hide DevOk, Chain, IsFreeStack, Names, ZeroBlock;
      forall b | b in [blk] ensures b in stack + [blk] {}
      BlkFree(blk);
      newno := BlkAlloc();
    }

    /** Allocates a block for the empty entry k of an inode (`bmap`). */
    method NewRoot(ip: nat, k: nat) returns (nb: nat)
      requires Valid() && NoneHeld() && |pool.holds| < NBUFS
      requires ip < |inodes| && inodes[ip].HasTree() && k < 20 && inodes[ip].addr[k] == 0
      modifies this`d, this`nfree, this`free, this`tfree, this`fmod, this`error, this`stack, this`inodes, this`role,
               pool, pool.cache
      ensures Valid() && pool.holds == old(pool.holds) && pool.peak <= Max(old(pool.peak), |pool.holds| + 1)
      ensures nb == 0 ==> St() == old(St()) && stack == [] && error == ENOSPC
      ensures nb != 0 ==> FsShape(old(St())) && Linked(old(St()), St(), Root(ip, k), nb) && error == old(error)
      ensures nb != 0 ==>
                inodes == old(inodes)[ip := old(inodes)[ip].(addr := old(inodes)[ip].addr[k := nb], dirty := true)]
      ensures nb != 0 ==> |stack| == |old(stack)| - 1
    {
      hide DevOk, Chain, IsFreeStack, Partition, Linked, Names, Stored, ZeroBlock;
      ghost var s := St();
      FreeNotHeld();
      nb := BlkAlloc();
      if nb == 0 {
        return;
      }
      ghost var u := St();
      inodes := inodes[ip := inodes[ip].(addr := inodes[ip].addr[k := nb], dirty := true)];
      role := role[nb := Root(ip, k)];
      RootLinked(s, u, St(), ip, k, nb);
      LinkedFacts(s, St(), Root(ip, k), nb);
    }

    /** The free blocks are data blocks, so nobody holds them. */
    lemma FreeNotHeld()
      requires Valid() && NoneHeld() && |pool.holds| < NBUFS
      ensures CanHold(stack, 1)
    {
    }

    /** Allocates a block for the empty word i of the held block of pointers at a
        location, and releases that block (`bmap`). */
    method NewWord(h: nat, ghost parent: Loc, p: nat, i: nat) returns (nb: nat)
      requires Valid() && CanHold(stack, 1) && i < 256
      requires h in pool.holds && pool.holds[h] == Named(Id(p), false)
      requires Node(parent) && IsPointer(parent) && p == At(St(), parent) != 0 && Word(d[p], i) == 0
      modifies this`d, this`nfree, this`free, this`tfree, this`fmod, this`error, this`stack, this`role, pool, pool.cache
      ensures Valid() && pool.peak <= Max(old(pool.peak), |old(pool.holds)| + 1)
      ensures pool.holds == old(pool.holds) - {h} && Names(pool.holds) == Names(old(pool.holds)) - {Id(p)}
      ensures nb == 0 ==> St() == old(St()) && stack == [] && error == ENOSPC
      ensures nb != 0 ==> FsShape(old(St())) && Linked(old(St()), St(), Child(parent, i), nb) && error == old(error)
    {
      hide DevOk, Chain, IsFreeStack, Partition, Linked, Names, Stored, ZeroBlock, Word, WordAt, PutWords, SubAt;
      ghost var s := St();
      PointerNotFree(s, parent);
      nb := BlkAlloc();
      if nb == 0 {
        Brelse(h);
        return;
      }
      ghost var u := St();
      var b := Load(h);
      Store(h, p, PutWords(b, i, [nb]));
      role := role[nb := Child(parent, i)];
      ChainFrame(u.d, d, Chunk(nfree, free), stack);
      WordLinked(s, u, St(), parent, i, nb);
      LinkedFacts(s, St(), Child(parent, i), nb);
    }

    /** What `bmap` promises about the state it leaves, for a request that started in
        s: the contents of all files are as they were, and nothing at all changed if
        the block existed or only reading was asked for. */
    ghost predicate Mapped(s: Fs, loc: Loc, rwflg: bool)
      requires FsShape(s)
      reads this`d, this`inodes, this`stack, this`role
    {
      && FsShape(St()) && Partition(St()) && SameBytes(s, St()) && SameInfo(s.inodes, inodes)
      && (rwflg || At(s, loc) != 0 ==> St() == s)
    }

    /** There is a free block for each of the first 18 entries of an inode without one. */
    ghost predicate Room(ip: nat)
      reads this`stack, this`inodes
    {
      ip < |inodes| && |inodes[ip].addr| >= 18 && Holes(inodes[ip].addr, 18) <= |stack|
    }

    /** The first step of `bmap`: entry k of the inode, allocated if need be. */
    method Entry(ghost goal: Loc, ip: nat, k: nat, rwflg: bool) returns (nb: nat)
      requires Valid() && NoneHeld() && |pool.holds| + 2 <= NBUFS
      requires ip < |inodes| && inodes[ip].HasTree() && k < 20 && Under(goal, Root(ip, k))
      modifies this`d, this`nfree, this`free, this`tfree, this`fmod, this`error, this`stack, this`inodes, this`role,
               pool, pool.cache
      ensures Valid() && pool.holds == old(pool.holds) && pool.peak <= Max(old(pool.peak), |pool.holds| + 2)
      ensures FsShape(old(St())) && Mapped(old(St()), goal, rwflg)
      ensures nb == At(St(), Root(ip, k))
      ensures nb == 0 ==> At(St(), goal) == 0 && (!rwflg ==> stack == [] && error == ENOSPC)
      ensures rwflg || nb != 0 ==> error == old(error)
      ensures Marked(old(inodes), inodes)
      ensures k < 18 && !rwflg && old(Room(ip)) ==> Room(ip) && nb != 0
      ensures nb != 0 ==> Took(old(St()), St(), Empty(old(St()), WayTo(Root(ip, k))))
      ensures nb == 0 && !rwflg ==> |Empty(old(St()), WayTo(goal))| > |old(stack)|
    {
      hide Took, DevOk, FreeOk, Chain, IsFreeStack, Partition, Linked, Names, SameBytes, SameInfo, WordAt, SubAt, Word;
      ghost var s := St();
      SameRefl(s);
      nb := inodes[ip].addr[k];
      OneEmpty(s, Root(ip, k));
      if nb == 0 {
        EmptyBelow(s, Root(ip, k), goal);
        HoleFilled(inodes[ip].addr, 18, k, 1);
        if rwflg {
          return;
        }
        nb := NewRoot(ip, k);
        if nb == 0 {
          WayUnder(goal, Root(ip, k));
          NoneAtAll(s, Root(ip, k), WayTo(goal));
        } else {
          HoleFilled(s.inodes[ip].addr, 18, k, nb);
          LinkedFacts(s, St(), Root(ip, k), nb);
        }
      }
    }

    /** `bmap`: the device block of block bn0 of a file, allocated, with the blocks of
        pointers on the way to it, unless rwflg asks for reading. NULLBLK means that
        there is none, and when writing that the device is full. */
    method Bmap(ip: nat, bn0: nat, rwflg: bool) returns (nb: nat)
      requires Valid() && NoneHeld() && |pool.holds| + 2 <= NBUFS
      requires ip < |inodes| && inodes[ip].HasTree() && bn0 < 65536
      modifies this`d, this`nfree, this`free, this`tfree, this`fmod, this`error, this`stack, this`inodes, this`role,
               pool, pool.cache
      ensures Valid() && pool.holds == old(pool.holds) && pool.peak <= Max(old(pool.peak), |pool.holds| + 2)
      ensures Mapped(old(St()), DataLoc(ip, bn0), rwflg)
      ensures nb == if At(St(), DataLoc(ip, bn0)) == 0 then NULLBLK else At(St(), DataLoc(ip, bn0))
      ensures ip < |inodes| && inodes[ip].Ok() && IsStore(d)
      ensures nb == if BlockOf(d, inodes[ip].addr, bn0) == 0 then NULLBLK else BlockOf(d, inodes[ip].addr, bn0)
      ensures !rwflg && nb == NULLBLK ==> stack == [] && error == ENOSPC
      ensures rwflg || nb != NULLBLK ==> error == old(error)
      ensures Marked(old(inodes), inodes)
      ensures bn0 < 18 && !rwflg && old(Room(ip)) ==> Room(ip) && nb != NULLBLK
      ensures FsShape(old(St())) && (!rwflg ==> (nb != NULLBLK <==> |Missing(old(St()), ip, bn0)| <= |old(stack)|))
      ensures nb != NULLBLK ==> Took(old(St()), St(), Missing(old(St()), ip, bn0))
    {
      hide BlockOf, Took, Empty, WayTo, DevOk, FreeOk, Partition, FsShape, Mapped, NoneHeld, At, Names, SameBytes,
           SameInfo;
      ghost var s := St();
      ghost var goal := DataLoc(ip, bn0);
      if bn0 < 18 {
        nb := Entry(goal, ip, bn0, rwflg);
        if nb == 0 {
          MappedWords(s, ip, bn0, rwflg);
          return NULLBLK;
        }
        PointerNotFree(St(), goal);
        TookCount(s, St(), Missing(s, ip, bn0));
        MappedWords(s, ip, bn0, rwflg);
        return;
      }
      var bn := bn0 - 18;
      var sh := 0;
      var j := 2;
      if bn / 256 != 0 {
        sh := 8;
        bn := bn - 256;
        j := 1;
      }
      ghost var loc := Root(ip, 20 - j);
      nb := Entry(goal, ip, 20 - j, rwflg);
      if nb == 0 {
        MappedWords(s, ip, bn0, rwflg);
        return NULLBLK;
      }
      while j <= 2
        invariant 1 <= j <= 3
        invariant j == 1 ==> sh == 8 && loc == Root(ip, 19) && bn0 == bn + 274
        invariant j == 2 ==> sh == 0 && Node(loc) && IsPointer(loc) && goal == Child(loc, bn % 256)
        invariant j == 3 ==> loc == goal
        invariant !loc.Free? && FsShape(s) && FsShape(St()) && Took(s, St(), Empty(s, WayTo(loc)))
        invariant Valid() && NoneHeld() && pool.holds == old(pool.holds)
        invariant pool.peak <= Max(old(pool.peak), |pool.holds| + 2)
        invariant Mapped(s, goal, rwflg) && error == old(error) && Marked(old(inodes), inodes)
        invariant nb == At(St(), loc) != 0
      {
        var i := (if sh == 8 then bn / 256 else bn) % 256;    // (bn >> sh) & 0xff
        nb := Descend(s, goal, loc, nb, i, rwflg);
        if nb == 0 {
          MappedWords(s, ip, bn0, rwflg);
          return NULLBLK;
        }
        loc := Child(loc, i);
        sh := sh - 8;
        j := j + 1;
      }
      PointerNotFree(St(), goal);
      TookCount(s, St(), Missing(s, ip, bn0));
      MappedWords(s, ip, bn0, rwflg);
    }

    /** The location of a block is where the words of the device say. */
    lemma MappedWords(s: Fs, ip: nat, bn: nat, rwflg: bool)
      requires FsShape(s) && ip < |s.inodes| && s.inodes[ip].HasTree() && bn < 65536
      requires Mapped(s, DataLoc(ip, bn), rwflg)
      ensures FsShape(St()) && ip < |inodes| && inodes[ip].Ok() && IsStore(d)
      ensures At(St(), DataLoc(ip, bn)) == BlockOf(d, inodes[ip].addr, bn)
    {
      DataLocIs(St(), ip, bn);
    }

    /** One round of the loop of `bmap`: from the block of pointers nb at location loc
        to its word i, allocating it if need be. 0 means that there is none. */
    method Descend(ghost s: Fs, ghost goal: Loc, ghost loc: Loc, nb: nat, i: nat, rwflg: bool) returns (next: nat)
      requires Valid() && NoneHeld() && |pool.holds| + 2 <= NBUFS
      requires FsShape(s) && Mapped(s, goal, rwflg) && nb == At(St(), loc) != 0 && i < 256
      requires !loc.Free? && Took(s, St(), Empty(s, WayTo(loc)))
      requires Node(loc) && IsPointer(loc) && Under(goal, Child(loc, i))
      modifies this`d, this`nfree, this`free, this`tfree, this`fmod, this`error, this`stack, this`role, pool, pool.cache
      ensures Valid() && pool.holds == old(pool.holds) && pool.peak <= Max(old(pool.peak), |pool.holds| + 2)
      ensures FsShape(s) && Mapped(s, goal, rwflg)
      ensures next == At(St(), Child(loc, i))
      ensures next == 0 ==> At(St(), goal) == 0 && (!rwflg ==> stack == [] && error == ENOSPC)
      ensures rwflg || next != 0 ==> error == old(error)
      ensures next != 0 ==> Took(s, St(), Empty(s, WayTo(Child(loc, i))))
      ensures next == 0 && !rwflg ==> |Empty(s, WayTo(goal))| > |s.stack|
    {
      hide Took, Empty, WayTo, DevOk, Chain, IsFreeStack, Partition, Linked, Names, SameBytes, SameInfo, WordAt,
           SubAt, Word;
      ghost var t := St();
      PointerNotFree(t, loc);
      ChildWord(t, loc, i);
      StackInRange(t);
      OneEmpty(t, Child(loc, i));
      var h := Fetch(nb);
      var b := Load(h);
      next := Word(b, i);
      if next != 0 {
        Brelse(h);
        assert pool.holds == old(pool.holds);
        TookStep(s, t, t, Child(loc, i));
      } else {
        EmptyBelow(t, Child(loc, i), goal);
        if rwflg {
          Brelse(h);
          assert pool.holds == old(pool.holds);
          return;
        }
        assert forall x :: x in stack ==> Id(x) !in Names(pool.holds);
        next := NewWord(h, loc, nb, i);
        assert pool.holds == old(pool.holds);
        if next == 0 {
          WayUnder(goal, Child(loc, i));
          NoneLeft(s, t, Child(loc, i), WayTo(goal));
        } else {
          LinkedFacts(t, St(), Child(loc, i), next);
          TookStep(s, t, St(), Child(loc, i));
          SameBytesTransitive(s, t, St());
          SameInfoTransitive(s.inodes, t.inodes, inodes);
        }
      }
    }

    lemma SameRefl(s: Fs)
      requires FsShape(s)
      ensures SameBytes(s, s) && SameInfo(s.inodes, s.inodes)
    {
    }

    /** `freeblk`: frees the tree under a block, in the order of Subtree. */
    method FreeBlk(blk: nat, level: nat)
      requires DevOk() && FreeOk() && blk < 65536 && level <= 2
      requires IsFreeStack(stack + Subtree(d, blk, level), isize, fsize)
      requires CanHold(Subtree(d, blk, level), level + 1)
      modifies this`d, this`nfree, this`free, this`tfree, this`fmod, this`stack, pool, pool.cache
      ensures DevOk() && FreeOk()
      ensures pool.holds == old(pool.holds) && pool.peak <= Max(old(pool.peak), |pool.holds| + level + 1)
      ensures stack == old(stack) + Subtree(old(d), blk, level)
      ensures SameOutside(old(d), d, Subtree(old(d), blk, level))
      decreases level
    {
      hide DevOk, Chain, IsFreeStack, Names, Word;
      if blk == 0 {
        return;
      }
      if level != 0 {
        FreeKids(blk, level);
        assert FreedFrom(old(d), old(stack), blk, level, 0);
      }
      ghost var kids := if level == 0 then [] else Kids(old(d), blk, level, 0);
      assert old(stack) + Subtree(old(d), blk, level) == stack + [blk];
      FreeStackDisjoint(stack, [blk], isize, fsize);
      assert blk in [blk] && blk in Subtree(old(d), blk, level);
      BlkFree(blk);
    }

    /** How far `freeblk` is when it has freed the trees under words j..255 of block
        blk, having started from device s and stack stack0. */
    ghost predicate FreedFrom(s: Store, stack0: seq<nat>, blk: nat, level: nat, j: nat)
      requires IsStore(s) && 0 < blk < 65536 && level > 0
      reads this`d, this`stack
    {
      && IsStore(d) && j <= 256
      && stack == stack0 + Kids(s, blk, level, j)
      && SameOutside(s, d, Kids(s, blk, level, j))
    }

    /** The loop of `freeblk` over the words of a held indirect block, last to first. */
    method FreeKids(blk: nat, level: nat)
      requires DevOk() && FreeOk() && 0 < blk < 65536 && 1 <= level <= 2
      requires IsFreeStack(stack + Subtree(d, blk, level), isize, fsize)
      requires CanHold(Subtree(d, blk, level), level + 1)
      modifies this`d, this`nfree, this`free, this`tfree, this`fmod, this`stack, pool, pool.cache
      ensures DevOk() && FreeOk()
      ensures pool.holds == old(pool.holds) && pool.peak <= Max(old(pool.peak), |pool.holds| + level + 1)
      ensures FreedFrom(old(d), old(stack), blk, level, 0)
      decreases level, 1
    {
      hide DevOk, FreeOk, FreedFrom, NotHeldBelow, Subtree, Kids, Names, IsFreeStack, CanHold, Id;
      FreedNothing(blk, level);
      ghost var s, stack0 := d, stack;
      var h := Fetch(blk);
      HoldRoundTrip(old(pool.holds), h, Named(Id(blk), false));
      FreeWords(h, s, stack0, blk, level);
      Brelse(h);
    }

    method FreeWords(h: nat, ghost s: Store, ghost stack0: seq<nat>, blk: nat, level: nat)
      requires DevOk() && FreeOk() && IsStore(s) && 0 < blk < 65536 && 1 <= level <= 2
      requires IsFreeStack(stack0 + Subtree(s, blk, level), isize, fsize)
      requires FreedFrom(s, stack0, blk, level, 256)
      requires h in pool.holds && pool.holds[h] == Named(Id(blk), false)
      requires NotHeldBelow(Names(pool.holds), s, blk, level) && |pool.holds| + level <= NBUFS
      modifies this`d, this`nfree, this`free, this`tfree, this`fmod, this`stack, pool, pool.cache
      ensures DevOk() && FreeOk()
      ensures pool.holds == old(pool.holds) && pool.peak <= Max(old(pool.peak), |pool.holds| + level)
      ensures FreedFrom(s, stack0, blk, level, 0)
      decreases level, 0, 256
    {
      hide DevOk, Chain, IsFreeStack, Names, Word, Subtree, Kids, SameOutside, FreedFrom, FreeOk;
      var j := 255;
      while j >= 0
        invariant -1 <= j <= 255
        invariant DevOk() && FreeOk() && pool.holds == old(pool.holds) && NotHeldBelow(Names(pool.holds), s, blk, level)
        invariant pool.peak <= Max(old(pool.peak), |pool.holds| + level)
        invariant FreedFrom(s, stack0, blk, level, j + 1)
      {
        FreeKid(h, s, stack0, blk, level, j);
        j := j - 1;
      }
    }

    /** Of the tree under block blk at most that block is held. */
    ghost predicate NotHeldBelow(names: set<BlockId>, s: Store, blk: nat, level: nat)
      requires IsStore(s) && blk < 65536
    {
      forall b :: b in Subtree(s, blk, level) && b != blk ==> Id(b) !in names
    }

    lemma FreedNothing(blk: nat, level: nat)
      requires FreeOk() && 0 < blk < 65536 && level > 0 && CanHold(Subtree(d, blk, level), level + 1)
      ensures |pool.holds| + level + 1 <= NBUFS
      ensures IsStore(d) && FreedFrom(d, stack, blk, level, 256) && Id(blk) !in Names(pool.holds)
      ensures NotHeldBelow(Names(pool.holds) + {Id(blk)}, d, blk, level)
    {
      assert blk in Subtree(d, blk, level) && stack == stack + [];
    }

    method FreeKid(h: nat, ghost s: Store, ghost stack0: seq<nat>, blk: nat, level: nat, j: nat)
      requires DevOk() && FreeOk() && IsStore(s) && 0 < blk < 65536 && 1 <= level <= 2 && j < 256
      requires IsFreeStack(stack0 + Subtree(s, blk, level), isize, fsize)
      requires FreedFrom(s, stack0, blk, level, j + 1)
      requires h in pool.holds && pool.holds[h] == Named(Id(blk), false)
      requires NotHeldBelow(Names(pool.holds), s, blk, level) && |pool.holds| + level <= NBUFS
      modifies this`d, this`nfree, this`free, this`tfree, this`fmod, this`stack, pool, pool.cache
      ensures DevOk() && FreeOk()
      ensures pool.holds == old(pool.holds) && pool.peak <= Max(old(pool.peak), |pool.holds| + level)
      ensures FreedFrom(s, stack0, blk, level, j)
      decreases level, 0, j
    {
      hide DevOk, Chain, IsFreeStack, Names, Word, Subtree, Kids, SameOutside;
      NextKid(s, d, stack0, blk, level, j, isize, fsize);
      var b := Load(h);
      ghost var e := d;
      assert b == s[blk];
      assert Subtree(d, Word(b, j), level - 1) == Subtree(s, Word(b, j), level - 1);
      forall x | x in Subtree(s, Word(b, j), level - 1) ensures Id(x) !in Names(pool.holds) {
        assert x in Subtree(s, blk, level) && x != blk;
      }
      FreeBlk(Word(b, j), level - 1);
      OutsideJoins(s, e, d, Kids(s, blk, level, j + 1), Subtree(s, Word(b, j), level - 1));
    }

    /** How far `f_trunc` is when it has freed entries k..19. */
    ghost predicate TruncatedFrom(s: Store, stack0: seq<nat>, addr: seq<nat>, k: nat)
      requires IsStore(s) && |addr| == 20 && AreWords(addr)
      reads this`d, this`stack
    {
      && IsStore(d) && k <= 20
      && stack == stack0 + Order(s, addr, k)
      && SameOutside(s, d, Order(s, addr, k))
    }

    lemma TruncatedNothing(ino: nat)
      requires Valid() && NoneHeld() && ino < |inodes| && inodes[ino].HasTree()
      ensures TruncatedFrom(d, stack, inodes[ino].addr, 20)
      ensures IsFreeStack(stack + Order(d, inodes[ino].addr, 0), isize, fsize)
    {
      TruncatedStack(St(), ino);
      assert stack == stack + [];
    }

    /** `freeblk` of entry k of the inode being truncated. */
    method FreeEntry(ghost s: Store, ghost stack0: seq<nat>, addr: seq<nat>, k: nat)
      requires DevOk() && FreeOk() && IsStore(s) && |addr| == 20 && AreWords(addr) && k < 20
      requires IsFreeStack(stack0 + Order(s, addr, 0), isize, fsize)
      requires TruncatedFrom(s, stack0, addr, k + 1)
      requires NoneHeld() && |pool.holds| + 3 <= NBUFS
      modifies this`d, this`nfree, this`free, this`tfree, this`fmod, this`stack, pool, pool.cache
      ensures DevOk() && FreeOk()
      ensures pool.holds == old(pool.holds) && pool.peak <= Max(old(pool.peak), |pool.holds| + 3)
      ensures TruncatedFrom(s, stack0, addr, k)
    {
      hide DevOk, Chain, IsFreeStack, Names, Subtree, Order, SameOutside;
      NextRoot(s, d, stack0, addr, k, isize, fsize);
      ghost var e := d;
      FreeStackDisjoint(stack, Subtree(d, addr[k], RootLevel(k)), isize, fsize);
      FreeBlk(addr[k], RootLevel(k));
      OutsideJoins(s, e, d, Order(s, addr, k + 1), Subtree(s, addr[k], RootLevel(k)));
    }

    /** `f_trunc`: all blocks of the file go onto the free stack and the inode becomes
        empty. Every other file keeps its contents. */
    method FTrunc(ino: nat)
      requires Valid() && NoneHeld() && |pool.holds| + 3 <= NBUFS
      requires ino < |inodes| && inodes[ino].HasTree()
      modifies this`d, this`nfree, this`free, this`tfree, this`fmod, this`stack, this`inodes, this`role, pool,
               pool.cache
      ensures Valid() && pool.holds == old(pool.holds) && pool.peak <= Max(old(pool.peak), |pool.holds| + 3)
      ensures stack == old(stack) + Order(old(d), old(inodes)[ino].addr, 0)
      ensures inodes == old(inodes)[ino := Dinode(old(inodes)[ino].mode, NoBlocks(), Off(0, 0), true)]
      ensures forall i: nat, pos: nat :: (ByteAt(St(), i, pos) == if i == ino then 0 else ByteAt(old(St()), i, pos))
    {
      hide DevOk, Chain, IsFreeStack, Names, Subtree, Order, SameOutside, TruncatedFrom, Partition, FreeOk, RootLevel;
      ghost var s := St();
      var addr := inodes[ino].addr;
      TruncatedNothing(ino);
      FreeEntry(s.d, s.stack, addr, 19);
      FreeEntry(s.d, s.stack, addr, 18);
      var j := 17;
      while j >= 0
        invariant -1 <= j <= 17
        invariant DevOk() && FreeOk() && pool.holds == old(pool.holds) && NoneHeld()
        invariant pool.peak <= Max(old(pool.peak), |pool.holds| + 3)
        invariant TruncatedFrom(s.d, s.stack, addr, j + 1) && inodes == s.inodes && role == s.role
      {
        FreeEntry(s.d, s.stack, addr, j);
        j := j - 1;
      }
      inodes := inodes[ino := inodes[ino].(addr := NoBlocks(), size := Off(0, 0), dirty := true)];
      role := FreedRoles(role, Order(s.d, addr, 0), |s.stack|);
      TruncationDone(s, ino);
    }

    lemma TruncationDone(s: Fs, ino: nat)
      requires FsShape(s) && Partition(s) && FreeOk() && ino < |s.inodes| && s.inodes[ino].HasTree()
      requires TruncatedFrom(s.d, s.stack, s.inodes[ino].addr, 0)
      requires inodes == s.inodes[ino := Dinode(s.inodes[ino].mode, NoBlocks(), Off(0, 0), true)]
      requires role == FreedRoles(s.role, Order(s.d, s.inodes[ino].addr, 0), |s.stack|)
      requires s.isize == isize && s.fsize == fsize
      ensures FsShape(St()) && Partition(St())
      ensures stack == s.stack + Order(s.d, s.inodes[ino].addr, 0)
      ensures forall i: nat, pos: nat :: (ByteAt(St(), i, pos) == if i == ino then 0 else ByteAt(s, i, pos))
    {
      hide Chain, Order, Partition, FreedRoles;
      TruncatedStack(s, ino);
      TruncateKeepsPartition(s, St(), ino);
    }
  }
}
