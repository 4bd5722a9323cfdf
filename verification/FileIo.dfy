/** Reading and writing file data (SCALL1.C, `readi` and `writei`): the loops that go
    from a file position through the block map to the buffers, for regular files and
    for the 18-block ring of a pipe. */
module FileIo {
  import opened Basics
  import opened Blocks
  import opened WriteCaches
  import opened BufferPools
  import opened FreeChains
  import opened BlockTrees
  import opened Spaces
  import opened FileSystems
  import opened Offsets

  const RING := 18 * 512

  /** Where positions wrap around: after 18 blocks in a pipe, with the 16-bit block
      number in a file. */
  function Wrap(ispipe: bool): int {
    if ispipe then RING else MAX_POS
  }

  /** How far pos is ahead of p0 on a ring of m positions. */
  function Ahead(p0: int, pos: int, m: int): int {
    if pos >= p0 then pos - p0 else pos - p0 + m
  }

  /** Byte pos of file i after data was stored from position p0 of file ino on. */
  ghost function Overlaid(s: Fs, ino: nat, p0: int, m: int, data: seq<Byte>, i: nat, pos: nat): Byte
    requires FsShape(s) && 0 <= p0 < m
  {
    if i == ino && pos < m && Ahead(p0, pos, m) < |data| then data[Ahead(p0, pos, m)] else ByteAt(s, i, pos)
  }

  ghost predicate WroteByte(s: Fs, t: Fs, ino: nat, p0: int, m: int, data: seq<Byte>, i: nat, pos: nat)
    requires FsShape(s) && FsShape(t) && 0 <= p0 < m
  {
    ByteAt(t, i, pos) == Overlaid(s, ino, p0, m, data, i, pos)
  }

  /** The bytes of all files are those of s, but for data stored from p0 of ino on. */
  ghost predicate Wrote(s: Fs, t: Fs, ino: nat, p0: int, m: int, data: seq<Byte>)
    requires FsShape(s) && FsShape(t) && 0 <= p0 < m
  {
    forall i: nat, pos: nat {:trigger WroteByte(s, t, ino, p0, m, data, i, pos)} ::
      WroteByte(s, t, ino, p0, m, data, i, pos)
  }

  /** A chunk stored within one block. */
  ghost predicate ChunkByte(s: Fs, t: Fs, ino: nat, p: int, chunk: seq<Byte>, i: nat, pos: nat)
    requires FsShape(s) && FsShape(t)
  {
    ByteAt(t, i, pos) == if i == ino && p <= pos < p + |chunk| then chunk[pos - p] else ByteAt(s, i, pos)
  }

  ghost predicate WroteChunk(s: Fs, t: Fs, ino: nat, p: int, chunk: seq<Byte>)
    requires FsShape(s) && FsShape(t)
  {
    forall i: nat, pos: nat {:trigger ChunkByte(s, t, ino, p, chunk, i, pos)} :: ChunkByte(s, t, ino, p, chunk, i, pos)
  }

  lemma WroteNothing(s: Fs, ino: nat, p0: int, m: int)
    requires FsShape(s) && 0 <= p0 < m
    ensures Wrote(s, s, ino, p0, m, []) && Advance(p0, 0, m) == p0
  {
  }

  /** One round of the loop of `writei`: a chunk goes right behind the data stored so far. */
  lemma WroteMore(s: Fs, t: Fs, v: Fs, ino: nat, p0: int, m: int, data: seq<Byte>, done: nat, p: int, amount: nat)
    requires FsShape(s) && FsShape(t) && FsShape(v) && 0 <= p0 < m && 0 <= p
    requires done + amount <= |data| <= m && p + amount <= m && p == Advance(p0, done, m)
    requires Wrote(s, t, ino, p0, m, data[..done])
    requires WroteChunk(t, v, ino, p, data[done..done + amount])
    ensures Wrote(s, v, ino, p0, m, data[..done + amount])
  {
    var stored := data[..done + amount];
    forall i: nat, pos: nat ensures WroteByte(s, v, ino, p0, m, stored, i, pos) {
      assert WroteByte(s, t, ino, p0, m, data[..done], i, pos);
      assert ChunkByte(t, v, ino, p, data[done..done + amount], i, pos);
    }
  }

  /** The block map and the size leave all bytes alone. */
  lemma AroundChunk(s: Fs, t: Fs, u: Fs, v: Fs, ino: nat, p: int, chunk: seq<Byte>)
    requires FsShape(s) && FsShape(t) && FsShape(u) && FsShape(v)
    requires SameBytes(s, t) && WroteChunk(t, u, ino, p, chunk) && SameBytes(u, v)
    ensures WroteChunk(s, v, ino, p, chunk)
  {
    forall i: nat, pos: nat ensures ChunkByte(s, v, ino, p, chunk, i, pos) {
      assert SameByte(s, t, i, pos) && ChunkByte(t, u, ino, p, chunk, i, pos) && SameByte(u, v, i, pos);
    }
  }

  /** What a block write does to the bytes of the files. */
  lemma BlockIsChunk(s: Fs, t: Fs, ino: nat, bn: nat, b: Block, o: nat, chunk: seq<Byte>)
    requires FsShape(s) && FsShape(t) && o + |chunk| <= 512 && At(s, DataLoc(ino, bn)) != 0
    requires |chunk| == 512 || b == s.d[At(s, DataLoc(ino, bn))]
    requires forall i: nat, pos: nat :: (ByteAt(t, i, pos) ==
               if i == ino && pos / 512 == bn then PutBytes(b, o, chunk)[pos % 512] else ByteAt(s, i, pos))
    ensures WroteChunk(s, t, ino, 512 * bn + o, chunk)
  {
    var p := 512 * bn + o;
    forall i: nat, pos: nat ensures ChunkByte(s, t, ino, p, chunk, i, pos) {
      assert pos == 512 * (pos / 512) + pos % 512;
    }
  }

  /** The body of the loop of `writei` below the block map: reads the block unless all
      of it will be overwritten, changes it and releases it dirty. */
  method WriteChunk(fs: FileSystem, ino: nat, bn: nat, pblk: nat, o: nat, chunk: seq<Byte>)
    requires fs.Valid() && fs.NoneHeld() && |fs.pool.holds| < NBUFS
    requires pblk == At(fs.St(), DataLoc(ino, bn)) != 0 && 0 < |chunk| && o + |chunk| <= 512
    modifies fs`d, fs.pool, fs.pool.cache
    ensures fs.Valid() && fs.pool.holds == old(fs.pool.holds)
    ensures fs.pool.peak <= Max(old(fs.pool.peak), |fs.pool.holds| + 1)
    ensures FsShape(old(fs.St())) && WroteChunk(old(fs.St()), fs.St(), ino, 512 * bn + o, chunk)
    ensures Took(old(fs.St()), fs.St(), {})
  {
    hide fs.DevOk, Chain, Partition, Names, WroteChunk, PutBytes, WordAt, SubAt, RootAt, DataLoc, NoDup;
    ghost var s := fs.St();
    PointerNotFree(s, DataLoc(ino, bn));
    ChainOf(fs, pblk);
    var h := fs.Grab(pblk, if |chunk| == 512 then 1 else 0);
    var b := fs.Load(h);
    fs.Store(h, pblk, PutBytes(b, o, chunk));
    HoldRoundTrip(old(fs.pool.holds), h, Named(fs.Id(pblk), |chunk| == 512));
    assert fs.d == s.d[pblk := PutBytes(b, o, chunk)];
    ChainFrame(s.d, fs.d, Chunk(fs.nfree, fs.free), fs.stack);
    WriteKeepsPartition(s, fs.St(), ino, bn, PutBytes(b, o, chunk));
    SamePlaces(s, fs.St());
    BlockIsChunk(s, fs.St(), ino, bn, b, o, chunk);
  }

  lemma SamePlaces(s: Fs, t: Fs)
    requires FsShape(s) && FsShape(t) && t.stack == s.stack && forall loc :: At(t, loc) == At(s, loc)
    ensures Took(s, t, {})
  {
    hide At, FsShape;
  }

  lemma ChainOf(fs: FileSystem, pblk: nat)
    requires fs.Valid() && pblk !in fs.stack
    ensures pblk < 65536 ==> forall i :: 0 <= i < |fs.stack| ==> fs.stack[i] != pblk
  {
  }

  /** Inode tables that agree on modes and sizes, but for the size of one inode. */
  predicate SizeSet(a: seq<Dinode>, b: seq<Dinode>, ino: nat, size: Off)
    requires ino < |a|
  {
    && |a| == |b|
    && forall i :: 0 <= i < |a| ==> b[i].mode == a[i].mode && b[i].size == if i == ino then size else a[i].size
  }

  lemma MarkedNone(a: seq<Dinode>)
    ensures Marked(a, a)
  {
  }

  /** Inodes changed once or twice are marked. */
  lemma MarkedBoth(a: seq<Dinode>, b: seq<Dinode>, c: seq<Dinode>)
    requires Marked(a, b) && Marked(b, c)
    ensures Marked(a, c)
  {
  }

  lemma SizeSetNone(a: seq<Dinode>, ino: nat)
    requires ino < |a|
    ensures SizeSet(a, a, ino, a[ino].size)
  {
  }

  lemma SizeSetOne(a: seq<Dinode>, ino: nat, size: Off, dirty: bool)
    requires ino < |a|
    ensures SizeSet(a, a[ino := a[ino].(size := size, dirty := dirty)], ino, size)
  {
  }

  lemma SizeSetMore(a: seq<Dinode>, b: seq<Dinode>, c: seq<Dinode>, ino: nat, size: Off)
    requires ino < |a| == |b| && SizeSet(a, b, ino, b[ino].size) && SizeSet(b, c, ino, size)
    ensures |c| == |a| && c[ino].size == size && SizeSet(a, c, ino, size) && c[ino].HasTree() == a[ino].HasTree()
  {
  }

  /** Stores a new file size. */
  method SetSize(fs: FileSystem, ino: nat, size: Off, dirty: bool)
    requires fs.Valid() && ino < |fs.inodes|
    modifies fs`inodes
    ensures fs.Valid() && FsShape(old(fs.St())) && SameBytes(old(fs.St()), fs.St()) && Took(old(fs.St()), fs.St(), {})
    ensures fs.Room(ino) == old(fs.Room(ino))
    ensures fs.inodes == old(fs.inodes)[ino := old(fs.inodes)[ino].(size := size, dirty := dirty)]
  {
    hide fs.DevOk, Chain, Partition, SameBytes, ByteAt, At, NoDup;
    ghost var s := fs.St();
    fs.inodes := fs.inodes[ino := fs.inodes[ino].(size := size, dirty := dirty)];
    SameTreesKeep(s, fs.St());
    SamePlaces(s, fs.St());
  }

  /** How a round of the loop of `writei` ends: with the chunk stored, on a full device,
      or with a copy that runs over the end of the buffer, after which nothing is said. */
  datatype Copy = Stored | NoSpace | Overruns

  /** One round of the loop of `writei`. */
  method WriteStep(fs: FileSystem, ino: nat, off: Off, chunk: seq<Byte>, ispipe: bool) returns (r: Copy)
    requires fs.Valid() && fs.NoneHeld() && |fs.pool.holds| + 2 <= NBUFS
    requires ino < |fs.inodes| && fs.inodes[ino].HasTree()
    requires Normal(off) && 0 < |chunk|
    modifies fs, fs.pool, fs.pool.cache
    ensures fs.Valid() && fs.pool.holds == old(fs.pool.holds)
    ensures fs.pool.peak <= Max(old(fs.pool.peak), |fs.pool.holds| + 2)
    ensures FsShape(old(fs.St())) && WroteChunk(old(fs.St()), fs.St(), ino, Pos(off), if r == Stored then chunk else [])
    ensures r == NoSpace ==> fs.stack == [] && fs.error == ENOSPC
    ensures r == (if r == NoSpace then r else if |chunk| <= 512 - off.offset then Stored else Overruns)
    ensures r != NoSpace ==> fs.error == old(fs.error)
    ensures !ispipe ==> Marked(old(fs.inodes), fs.inodes)
    ensures SizeSet(old(fs.inodes), fs.inodes, ino,
              if ispipe && r == Stored then AddOff(old(fs.inodes)[ino].size, |chunk|) else old(fs.inodes)[ino].size)
    ensures r == NoSpace <==> |Missing(old(fs.St()), ino, off.blkno)| > |old(fs.stack)|
    ensures r != NoSpace ==> Took(old(fs.St()), fs.St(), Missing(old(fs.St()), ino, off.blkno))
    ensures off.blkno < 18 && old(fs.Room(ino)) ==> fs.Room(ino) && r != NoSpace
  {
    hide Took, Missing, fs.DevOk, fs.FreeOk, Partition, Names, SameBytes, WroteChunk, ByteAt, At, DataLoc, NoDup,
         AddOff;
    ghost var s := fs.St();
    var pblk := fs.Bmap(ino, off.blkno, false);
    ghost var t := fs.St();
    NoChunk(s, t, ino, Pos(off));
    if pblk == NULLBLK { return NoSpace; }
    if off.offset + |chunk| > 512 { return Overruns; }
    WriteChunk(fs, ino, off.blkno, pblk, off.offset, chunk);
    ghost var u := fs.St();
    if ispipe {
      SetSize(fs, ino, AddOff(fs.inodes[ino].size, |chunk|), fs.inodes[ino].dirty);
    } else {
      fs.SameRefl(u);
      TookNothing(u);
    }
    ghost var missing := Missing(s, ino, off.blkno);
    TookBoth(s, t, u, missing, {});
    TookBoth(s, u, fs.St(), missing, {});
    assert missing + {} == missing;
    AroundChunk(s, t, u, fs.St(), ino, Pos(off), chunk);
    r := Stored;
  }

  lemma NoChunk(s: Fs, t: Fs, ino: nat, p: int)
    requires FsShape(s) && FsShape(t) && SameBytes(s, t)
    ensures WroteChunk(s, t, ino, p, [])
  {
    forall i: nat, pos: nat ensures ChunkByte(s, t, ino, p, [], i, pos) {
      assert SameByte(s, t, i, pos);
    }
  }

  lemma PosAtLeast(off: Off)
    requires Normal(off)
    ensures 0 <= Pos(off)
  {
  }

  lemma AdvanceStep(p0: int, n: nat, k: nat, m: int, p: int)
    requires 0 <= p0 < m && n + k <= m && 0 < k && p == Advance(p0, n, m) && p + k <= m
    ensures Advance(p0, n + k, m) == if p + k == m then 0 else p + k
  {
  }

  /** Where a position moves by amount bytes on its ring. */
  lemma StepMoves(p0: Off, done: nat, off: Off, amount: nat, ispipe: bool)
    requires Normal(p0) && Normal(off) && Pos(p0) < Wrap(ispipe) && done + amount <= 32767
    requires Pos(off) == Advance(Pos(p0), done, Wrap(ispipe)) < Wrap(ispipe)
    requires ispipe ==> done + amount <= RING
    requires 0 < amount <= 512 - off.offset
    ensures var q := AddOff(off, amount);
            var r := if ispipe && q.blkno >= 18 then Off(0, q.offset) else q;
            Normal(r) && Pos(r) == Advance(Pos(p0), done + amount, Wrap(ispipe)) < Wrap(ispipe)
  {
    hide AddOff, Advance;
    AdvanceStep(Pos(p0), done, amount, Wrap(ispipe), Pos(off));
    AddOffExact(off, amount);
  }

  lemma SizeGrows(size: Off, amount: nat)
    requires Normal(size) && Pos(size) + amount <= 8192
    ensures Normal(AddOff(size, amount)) && Pos(AddOff(size, amount)) == Pos(size) + amount
  {
    hide AddOff;
    AddOffExact(size, amount);
  }

  /** The amount for one block: if 32768 bytes or more are left to do, it is all of them. */
  lemma ChunkFits(off: Off, left: nat, ispipe: bool)
    requires Normal(off) && Pos(off) < Wrap(ispipe) && 0 < left < 65536
    ensures Min16(left, 512 - off.offset) == if left < 32768 then Min(left, 512 - off.offset) else left
    ensures Pos(off) + (512 - off.offset) <= Wrap(ispipe)
    ensures 0 <= off.offset < 512 && 0 <= off.blkno < 65536 && Pos(off) == 512 * off.blkno + off.offset
  {
  }

  /** How many of n bytes are stored: as many as there are free blocks for at the call. Of
      32768 and more none are, and the copy overruns if there is a block for the first. */
  ghost predicate MuchStored(s: Fs, ino: nat, p: nat, m: nat, n: nat, done: nat, overrun: bool)
    requires FsShape(s) && p < m && n <= m && done <= n
  {
    && |Need(s, ino, p, done, m)| <= |s.stack|
    && (done < n && !overrun ==> |Need(s, ino, p, done + 1, m)| > |s.stack|)
    && (overrun <==> n >= 32768 && |Need(s, ino, p, 1, m)| <= |s.stack|)
  }

  /** One round takes what is missing for its block. */
  lemma NeedMore(s: Fs, t: Fs, u: Fs, ino: nat, p: nat, m: nat, done: nat, amount: nat, off: Off)
    requires FsShape(s) && FsShape(t) && p < m && done + amount <= m && Normal(off)
    requires Pos(off) == Advance(p, done, m) && 0 < amount <= 512 - off.offset && Pos(off) + amount <= m
    requires Took(s, t, Need(s, ino, p, done, m)) && Took(t, u, Missing(t, ino, off.blkno))
    ensures Took(s, u, Need(s, ino, p, done + amount, m))
  {
    hide Took, Empty, FsShape, Way;
    WaysOfChunk(ino, p, done, amount, m, off.blkno, off.offset);
    TookMore(s, t, u, Ways(ino, p, done, m), Way(ino, off.blkno));
  }

  lemma NeedNone(s: Fs, ino: nat, p: nat, m: nat)
    requires FsShape(s) && p < m
    ensures Took(s, s, Need(s, ino, p, 0, m)) && |Need(s, ino, p, 0, m)| == 0
  {
    hide FsShape, At, Took;
    OneEmpty(s, Root(ino, 0));
    assert Need(s, ino, p, 0, m) == {};
  }

  /** The next byte needs what is missing for its block. */
  lemma NextByte(ino: nat, p: nat, m: nat, done: nat, off: Off)
    requires p < m && done < m && Normal(off) && Pos(off) == Advance(p, done, m) < m
    ensures Ways(ino, p, done + 1, m) == Ways(ino, p, done, m) + Way(ino, off.blkno)
  {
    hide Way, Advance;
    WaysOfChunk(ino, p, done, 1, m, off.blkno, off.offset);
  }

  /** A round that fails for lack of space. */
  lemma NoSpaceLeft(s: Fs, t: Fs, ino: nat, p: nat, m: nat, n: nat, done: nat, off: Off)
    requires FsShape(s) && FsShape(t) && p < m && done < n <= m
    requires Normal(off) && 0 <= off.blkno && Pos(off) == Advance(p, done, m) < m
    requires Took(s, t, Need(s, ino, p, done, m)) && (n >= 32768 ==> done == 0)
    requires |Missing(t, ino, off.blkno)| > |t.stack|
    ensures MuchStored(s, ino, p, m, n, done, false)
  {
    hide Took, Empty, FsShape, Way, Advance, Normal, Ways;
    TookCount(s, t, Need(s, ino, p, done, m));
    NextByte(ino, p, m, done, off);
    TooFew(s, t, Ways(ino, p, done, m), Way(ino, off.blkno));
  }

  /** The first round, with a copy that overruns. */
  lemma FirstOverruns(s: Fs, u: Fs, ino: nat, p: nat, m: nat, n: nat, off: Off)
    requires FsShape(s) && p < m && 32768 <= n <= m && Normal(off) && 0 <= off.blkno && Pos(off) == p < m
    requires Took(s, u, Missing(s, ino, off.blkno))
    ensures MuchStored(s, ino, p, m, n, 0, true)
  {
    hide Took, Empty, FsShape, Way, Normal, At;
    NeedNone(s, ino, p, m);
    NextByte(ino, p, m, 0, off);
    assert Ways(ino, p, 0, m) + Way(ino, off.blkno) == Way(ino, off.blkno);
    TookCount(s, u, Missing(s, ino, off.blkno));
  }

  lemma AllStored(s: Fs, t: Fs, ino: nat, p: nat, m: nat, n: nat)
    requires FsShape(s) && p < m && n <= m && n < 32768 && Took(s, t, Need(s, ino, p, n, m))
    ensures MuchStored(s, ino, p, m, n, n, false)
  {
    hide Took, Empty, FsShape, Ways;
    TookCount(s, t, Need(s, ino, p, n, m));
  }

  /** The loop of `writei`. It stores the data byte by byte from the given position on,
      and stops early when the device is full. With 32768 bytes or more the signed
      comparison makes the first copy run over the end of its buffer. */
  method WriteLoop(fs: FileSystem, ino: nat, off0: Off, data: seq<Byte>, ispipe: bool)
    returns (off: Off, ghost done: nat, overrun: bool)
    requires fs.Valid() && fs.NoneHeld() && |fs.pool.holds| + 2 <= NBUFS
    requires ino < |fs.inodes| && fs.inodes[ino].HasTree()
    requires Normal(off0) && Pos(off0) < Wrap(ispipe) && |data| < 65536
    requires ispipe ==> Normal(fs.inodes[ino].size) && Pos(fs.inodes[ino].size) + |data| <= 8192
    modifies fs, fs.pool, fs.pool.cache
    ensures fs.Valid() && fs.pool.holds == old(fs.pool.holds)
    ensures fs.pool.peak <= Max(old(fs.pool.peak), |fs.pool.holds| + 2)
    ensures done <= |data| && Normal(off) && Pos(off) == Advance(Pos(off0), done, Wrap(ispipe)) < Wrap(ispipe)
    ensures FsShape(old(fs.St())) && Wrote(old(fs.St()), fs.St(), ino, Pos(off0), Wrap(ispipe), data[..done])
    ensures MuchStored(old(fs.St()), ino, Pos(off0), Wrap(ispipe), |data|, done, overrun)
    ensures done == |data| ==> Took(old(fs.St()), fs.St(), Need(old(fs.St()), ino, Pos(off0), done, Wrap(ispipe)))
    ensures overrun ==> |data| >= 32768
    ensures |data| >= 32768 ==> done == 0
    ensures done < |data| ==> overrun || (fs.stack == [] && fs.error == ENOSPC)
    ensures overrun || done == |data| ==> fs.error == old(fs.error)
    ensures ispipe && old(fs.Room(ino)) ==> fs.Room(ino) && (done == |data| || overrun)
    ensures |fs.inodes| == |old(fs.inodes)| && SizeSet(old(fs.inodes), fs.inodes, ino, fs.inodes[ino].size)
    ensures ispipe ==> Normal(fs.inodes[ino].size) && Pos(fs.inodes[ino].size) == Pos(old(fs.inodes)[ino].size) + done
    ensures !ispipe ==> fs.inodes[ino].size == old(fs.inodes)[ino].size && Marked(old(fs.inodes), fs.inodes)
  {
    hide SizeSet, Marked, Took, Need, Missing, MuchStored, fs.Room, Holes, At, ByteAt, fs.DevOk, fs.FreeOk, Partition,
         Names, Wrote, WroteChunk, FsShape, AddOff, Min16, Advance, Normal, Pos;
    off := off0;
    done, overrun := 0, false;
    var towrite := |data|;
    ghost var s := fs.St();
    PosAtLeast(off0);
    if ispipe { PosAtLeast(fs.inodes[ino].size); }
    assert |data| <= Wrap(ispipe);
    ghost var room := ispipe && fs.Room(ino);
    WroteNothing(s, ino, Pos(off0), Wrap(ispipe));
    SizeSetNone(s.inodes, ino);
    MarkedNone(s.inodes);
    NeedNone(s, ino, Pos(off0), Wrap(ispipe));
    while towrite > 0
      invariant 0 <= done <= |data| && towrite == |data| - done
      invariant fs.Valid() && fs.pool.holds == old(fs.pool.holds)
      invariant fs.pool.peak <= Max(old(fs.pool.peak), |fs.pool.holds| + 2)
      invariant Normal(off) && Pos(off) == Advance(Pos(off0), done, Wrap(ispipe)) < Wrap(ispipe)
      invariant FsShape(s) && FsShape(fs.St()) && Wrote(s, fs.St(), ino, Pos(off0), Wrap(ispipe), data[..done])
      invariant Took(s, fs.St(), Need(s, ino, Pos(off0), done, Wrap(ispipe)))
      invariant fs.error == old(fs.error) && !overrun && (room ==> fs.Room(ino))
      invariant |data| >= 32768 ==> done == 0 && off == off0 && fs.St() == s
      invariant |fs.inodes| == |old(fs.inodes)| && fs.inodes[ino].HasTree()
      invariant SizeSet(old(fs.inodes), fs.inodes, ino, fs.inodes[ino].size)
      invariant ispipe ==>
                && Normal(fs.inodes[ino].size)
                && Pos(fs.inodes[ino].size) == Pos(old(fs.inodes)[ino].size) + done
      invariant !ispipe ==> fs.inodes[ino].size == old(fs.inodes)[ino].size && Marked(s.inodes, fs.inodes)
    {
      var amount := Min16(towrite, 512 - off.offset);
      ghost var t := fs.St();
      ChunkFits(off, towrite, ispipe);
      var chunk := data[|data| - towrite..|data| - towrite + amount];
      assert data[done..done] == [] && chunk == data[done..done + amount];
      if ispipe {
        SizeGrows(fs.inodes[ino].size, amount);
      }
      var r := WriteStep(fs, ino, off, chunk, ispipe);
      if !ispipe { MarkedBoth(s.inodes, t.inodes, fs.inodes); }
      ghost var size := t.inodes[ino].size;
      SizeSetMore(s.inodes, t.inodes, fs.inodes, ino, if ispipe && r == Stored then AddOff(size, |chunk|) else size);
      WroteMore(s, t, fs.St(), ino, Pos(off0), Wrap(ispipe), data, done, Pos(off), if r == Stored then amount else 0);
      if r != Stored {
        overrun := r == Overruns;
        if overrun {
          FirstOverruns(s, fs.St(), ino, Pos(off0), Wrap(ispipe), |data|, off);
        } else {
          NoSpaceLeft(s, t, ino, Pos(off0), Wrap(ispipe), |data|, done, off);
        }
        return;
      }
      NeedMore(s, t, fs.St(), ino, Pos(off0), Wrap(ispipe), done, amount, off);
      StepMoves(off0, done, off, amount, ispipe);
      off := AddOff(off, amount);
      if ispipe && off.blkno >= 18 {
        off := Off(0, off.offset);
      }
      done := done + amount;
      towrite := towrite - amount;
    }
    AllStored(s, fs.St(), ino, Pos(off0), Wrap(ispipe), |data|);
  }

  /** The bytes a reader finds from position p0 on. */
  ghost predicate ReadFrom(s: Fs, ino: nat, p0: int, m: int, data: seq<Byte>)
    requires FsShape(s) && 0 <= p0 < m
  {
    |data| <= m && forall k :: 0 <= k < |data| ==> data[k] == ByteAt(s, ino, Advance(p0, k, m))
  }

  lemma ReadMore(s: Fs, ino: nat, p0: int, m: int, data: seq<Byte>, bn: nat, o: nat, b: Block, amount: nat)
    requires FsShape(s) && 0 <= p0 < m && ReadFrom(s, ino, p0, m, data) && |data| + amount <= m
    requires Advance(p0, |data|, m) == 512 * bn + o && o + amount <= 512 && 512 * bn + o + amount <= m
    requires b == if At(s, DataLoc(ino, bn)) == 0 then ZeroBlock() else s.d[At(s, DataLoc(ino, bn))]
    ensures ReadFrom(s, ino, p0, m, data + b[o..o + amount])
  {
    hide DataLoc, At, FsShape, ZeroBlock;
    var all := data + b[o..o + amount];
    forall k: nat | k < |all| ensures all[k] == ByteAt(s, ino, Advance(p0, k, m)) {
      if k >= |data| {
        var i := o + (k - |data|);
        AdvanceOn(p0, |data|, k, m);
        assert (512 * bn + i) / 512 == bn && (512 * bn + i) % 512 == i;
        assert ByteAt(s, ino, 512 * bn + i) == b[i];
      }
    }
  }

  lemma AdvanceOn(p0: int, n: nat, k: nat, m: int)
    requires 0 <= p0 < m && n <= k < m && Advance(p0, n, m) + (k - n) < m
    ensures Advance(p0, k, m) == Advance(p0, n, m) + (k - n) >= 0
  {
  }

  /** The block that `readi` finds behind a block number of a file: a hole reads as a
      block of zeros. */
  method ReadStep(fs: FileSystem, ino: nat, bn: nat) returns (b: Block)
    requires fs.Valid() && fs.NoneHeld() && |fs.pool.holds| + 2 <= NBUFS
    requires ino < |fs.inodes| && fs.inodes[ino].HasTree() && bn < 65536
    modifies fs, fs.pool, fs.pool.cache
    ensures fs.Valid() && fs.pool.holds == old(fs.pool.holds)
    ensures fs.pool.peak <= Max(old(fs.pool.peak), |fs.pool.holds| + 2)
    ensures fs.St() == old(fs.St()) && fs.error == old(fs.error)
    ensures b == if At(fs.St(), DataLoc(ino, bn)) == 0 then ZeroBlock() else fs.d[At(fs.St(), DataLoc(ino, bn))]
  {
    hide fs.DevOk, fs.FreeOk, Partition, Names, SameBytes, DataLoc, At, FsShape;
    var pblk := fs.Bmap(ino, bn, true);
    PointerBlk(fs.St(), DataLoc(ino, bn));
    if pblk == NULLBLK {
      b := fs.ReadHole();
    } else {
      b := fs.ReadBlock(pblk);
    }
  }

  lemma PointerBlk(s: Fs, loc: Loc)
    requires Partition(s) && !loc.Free?
    ensures At(s, loc) != 0 ==> s.isize <= At(s, loc) < s.fsize && At(s, loc) != NULLBLK
  {
    if At(s, loc) != 0 { PointerNotFree(s, loc); }
  }

  /** The loop of `readi`. With 32768 bytes or more the first copy runs over the end of
      its buffer. */
  method ReadLoop(fs: FileSystem, ino: nat, off0: Off, count: nat, ispipe: bool)
    returns (off: Off, data: seq<Byte>, overrun: bool)
    requires fs.Valid() && fs.NoneHeld() && |fs.pool.holds| + 2 <= NBUFS
    requires ino < |fs.inodes| && fs.inodes[ino].HasTree()
    requires Normal(off0) && Pos(off0) < Wrap(ispipe) && count < 65536
    requires ispipe ==> Normal(fs.inodes[ino].size) && Pos(fs.inodes[ino].size) <= 8192
    requires ispipe && count < 32768 ==> count <= Pos(fs.inodes[ino].size)
    modifies fs, fs.pool, fs.pool.cache
    ensures fs.Valid() && fs.pool.holds == old(fs.pool.holds)
    ensures fs.pool.peak <= Max(old(fs.pool.peak), |fs.pool.holds| + 2)
    ensures overrun <==> count >= 32768
    ensures |data| == (if overrun then 0 else count)
    ensures Normal(off) && Pos(off) == Advance(Pos(off0), |data|, Wrap(ispipe)) < Wrap(ispipe)
    ensures FsShape(old(fs.St())) && ReadFrom(old(fs.St()), ino, Pos(off0), Wrap(ispipe), data)
    ensures fs.error == old(fs.error)
    ensures FsShape(old(fs.St())) && SameBytes(old(fs.St()), fs.St())
    ensures !ispipe || overrun ==> fs.St() == old(fs.St())
    ensures |fs.inodes| == |old(fs.inodes)| && SizeSet(old(fs.inodes), fs.inodes, ino, fs.inodes[ino].size)
    ensures ispipe ==> Normal(fs.inodes[ino].size) && Pos(fs.inodes[ino].size) == Pos(old(fs.inodes)[ino].size) - |data|
    ensures fs.Room(ino) == old(fs.Room(ino))
  {
    hide SizeSet, Took, fs.Room, Holes, ByteAt, fs.DevOk, fs.FreeOk, Partition, Names, SameBytes, ReadFrom, FsShape,
         AddOff, Min16, DataLoc, At, Advance,
         Normal, Pos;
    off := off0;
    data, overrun := [], false;
    var toread := count;
    ghost var s := fs.St();
    PosAtLeast(off0);
    SizeSetNone(s.inodes, ino);
    ReadNothing(s, ino, Pos(off0), Wrap(ispipe));
    while toread > 0
      invariant 0 <= |data| <= count && toread == count - |data| && (count >= 32768 ==> data == [])
      invariant fs.Valid() && fs.pool.holds == old(fs.pool.holds)
      invariant fs.pool.peak <= Max(old(fs.pool.peak), |fs.pool.holds| + 2)
      invariant Normal(off) && Pos(off) == Advance(Pos(off0), |data|, Wrap(ispipe)) < Wrap(ispipe)
      invariant FsShape(s) && ReadFrom(s, ino, Pos(off0), Wrap(ispipe), data)
      invariant FsShape(fs.St()) && SameBytes(s, fs.St()) && fs.error == old(fs.error)
      invariant !ispipe || data == [] ==> fs.St() == s
      invariant fs.Room(ino) == old(fs.Room(ino))
      invariant |fs.inodes| == |old(fs.inodes)| && fs.inodes[ino].HasTree()
      invariant SizeSet(old(fs.inodes), fs.inodes, ino, fs.inodes[ino].size)
      invariant ispipe ==>
                && Normal(fs.inodes[ino].size)
                && Pos(fs.inodes[ino].size) == Pos(old(fs.inodes)[ino].size) - |data|
    {
      ghost var t := fs.St();
      var amount := Min16(toread, 512 - off.offset);
      ChunkFits(off, toread, ispipe);
      var b := ReadStep(fs, ino, off.blkno);
      assert fs.St() == t;
      if off.offset + amount > 512 { return off, data, true; }
      StepMoves(off0, |data|, off, amount, ispipe);
      ReadAgain(s, t, ino, Pos(off0), Wrap(ispipe), data);
      ReadMore(t, ino, Pos(off0), Wrap(ispipe), data, off.blkno, off.offset, b, amount);
      data := data + b[off.offset..off.offset + amount];
      ReadAgain(s, t, ino, Pos(off0), Wrap(ispipe), data);
      off := AddOff(off, amount);
      if ispipe && off.blkno >= 18 {
        off := Off(0, off.offset);
      }
      toread := toread - amount;
      if ispipe {
        SizeShrinks(fs.inodes[ino].size, amount);
        var size := AddOff(fs.inodes[ino].size, 0 - amount);
        SetSize(fs, ino, size, fs.inodes[ino].dirty);
        SizeSetOne(t.inodes, ino, size, fs.inodes[ino].dirty);
        SizeSetMore(s.inodes, t.inodes, fs.inodes, ino, size);
        SameBytesTransitive(s, t, fs.St());
      }
    }
  }

  lemma ReadNothing(s: Fs, ino: nat, p0: int, m: int)
    requires FsShape(s) && 0 <= p0 < m
    ensures ReadFrom(s, ino, p0, m, []) && SameBytes(s, s) && Advance(p0, 0, m) == p0
  {
  }

  /** Reading does not depend on more than the bytes. */
  lemma ReadAgain(s: Fs, t: Fs, ino: nat, p0: int, m: int, data: seq<Byte>)
    requires FsShape(s) && FsShape(t) && SameBytes(s, t) && 0 <= p0 < m
    ensures ReadFrom(s, ino, p0, m, data) == ReadFrom(t, ino, p0, m, data)
  {
    if |data| <= m {
      forall k | 0 <= k < |data| ensures ByteAt(s, ino, Advance(p0, k, m)) == ByteAt(t, ino, Advance(p0, k, m)) {
        assert SameByte(s, t, ino, Advance(p0, k, m));
      }
    }
  }

  lemma SizeShrinks(size: Off, amount: nat)
    requires Normal(size) && amount <= Pos(size) <= 8192
    ensures Normal(AddOff(size, 0 - amount)) && Pos(AddOff(size, 0 - amount)) == Pos(size) - amount
  {
    hide AddOff;
    AddOffExact(size, 0 - amount);
  }

  // Regular files and directories as byte sequences.

  /** The contents of a file. */
  ghost function Contents(s: Fs, ino: nat): (c: seq<Byte>)
    requires FsShape(s) && ino < |s.inodes| && Normal(s.inodes[ino].size)
    ensures |c| == Pos(s.inodes[ino].size)
  {
    seq(Pos(s.inodes[ino].size), k requires 0 <= k < Pos(s.inodes[ino].size) => ByteAt(s, ino, k))
  }

  /** c, extended with zeros up to p if it is shorter, with data in place of what was at
      [p, p + |data|). */
  function Spliced(c: seq<Byte>, p: nat, data: seq<Byte>): (r: seq<Byte>) {
    (if p <= |c| then c[..p] else c + seq(p - |c|, _ => 0)) + data + (if p + |data| <= |c| then c[p + |data|..] else [])
  }

  predicate IsFile(n: Dinode) {
    n.mode == F_REG || n.mode == F_DIR
  }

  predicate SizesOk(inodes: seq<Dinode>) {
    forall i :: 0 <= i < |inodes| ==> Normal(inodes[i].size)
  }

  /** Storage of files behind their ends is empty: what makes a gap read as zeros. */
  ghost predicate ZeroTails(s: Fs)
    requires FsShape(s)
  {
    forall i: nat, pos: nat :: i < |s.inodes| && IsFile(s.inodes[i]) && Pos(s.inodes[i].size) <= pos ==>
      ByteAt(s, i, pos) == 0
  }

  lemma SplicedAt(c: seq<Byte>, p: nat, data: seq<Byte>, k: nat)
    requires k < |Spliced(c, p, data)|
    ensures |Spliced(c, p, data)| == Max(|c|, p + |data|)
    ensures Spliced(c, p, data)[k] == if p <= k < p + |data| then data[k - p] else if k < |c| then c[k] else 0
  {
  }

  /** What the loop of `writei` and the size update after it do to a file. */
  lemma WriteSplices(s: Fs, t: Fs, ino: nat, p: nat, data: seq<Byte>)
    requires FsShape(s) && FsShape(t) && ino < |s.inodes| && IsFile(s.inodes[ino]) && SizesOk(s.inodes) && ZeroTails(s)
    requires p + |data| < MAX_POS && Wrote(s, t, ino, p, MAX_POS, data)
    requires |t.inodes| == |s.inodes| && SizeSet(s.inodes, t.inodes, ino, t.inodes[ino].size) && SizesOk(t.inodes)
    requires Pos(t.inodes[ino].size) == Max(Pos(s.inodes[ino].size), p + |data|)
    ensures Contents(t, ino) == Spliced(Contents(s, ino), p, data)
    ensures ZeroTails(t)
    ensures forall i :: 0 <= i < |s.inodes| && i != ino ==> Contents(t, i) == Contents(s, i)
  {
    forall i: nat, pos: nat
      ensures ByteAt(t, i, pos) == if i == ino && p <= pos < p + |data| then data[pos - p] else ByteAt(s, i, pos)
    {
      assert WroteByte(s, t, ino, p, MAX_POS, data, i, pos);
    }
    hide ByteAt;
    assert |Spliced(Contents(s, ino), p, data)| == Max(Pos(s.inodes[ino].size), p + |data|);
    forall k | 0 <= k < Pos(t.inodes[ino].size) ensures Contents(t, ino)[k] == Spliced(Contents(s, ino), p, data)[k] {
      SplicedAt(Contents(s, ino), p, data, k);
    }
  }

  /** `writei` for a regular file or directory. It writes all of the data, or as much
      as there is space for; the file then reads as the byte sequence with that data
      spliced in, and no other file changes. A request for 32768 bytes or more runs over
      the end of a buffer unless there is no space at all. */
  method Writei(fs: FileSystem, ino: nat, off0: Off, data: seq<Byte>)
    returns (off: Off, ghost done: nat, overrun: bool)
    requires fs.Valid() && fs.NoneHeld() && |fs.pool.holds| + 2 <= NBUFS
    requires ino < |fs.inodes| && IsFile(fs.inodes[ino]) && SizesOk(fs.inodes) && ZeroTails(fs.St())
    requires Normal(off0) && |data| < 65536
    modifies fs, fs.pool, fs.pool.cache
    ensures fs.Valid() && fs.pool.holds == old(fs.pool.holds)
    ensures fs.pool.peak <= Max(old(fs.pool.peak), |fs.pool.holds| + 2)
    ensures done <= |data| && (overrun || done == |data| ==> fs.error == old(fs.error))
    ensures done < |data| ==> overrun || (fs.stack == [] && fs.error == ENOSPC)
    ensures MuchStored(old(fs.St()), ino, Pos(off0), MAX_POS, |data|, done, overrun)
    ensures |data| < 32768 ==> !overrun
    ensures |data| < 32768 ==>
              (done == |data| <==> |Need(old(fs.St()), ino, Pos(off0), |data|, MAX_POS)| <= |old(fs.stack)|)
    ensures done == |data| ==> Took(old(fs.St()), fs.St(), Need(old(fs.St()), ino, Pos(off0), done, MAX_POS))
    ensures |data| >= 32768 ==> done == 0
    ensures FsShape(old(fs.St())) && Wrote(old(fs.St()), fs.St(), ino, Pos(off0), MAX_POS, data[..done])
    ensures |fs.inodes| == |old(fs.inodes)|
    ensures SizeSet(old(fs.inodes), fs.inodes, ino, fs.inodes[ino].size) && SizesOk(fs.inodes)
    ensures Marked(old(fs.inodes), fs.inodes)
    ensures forall i :: 0 <= i < |fs.inodes| && old(fs.inodes)[i].dirty ==> fs.inodes[i].dirty
    ensures Normal(off) && Pos(off) == Advance(Pos(off0), done, MAX_POS)
    ensures !overrun ==>
              (Contents(fs.St(), ino) == Spliced(Contents(old(fs.St()), ino), Pos(off0), data[..done]) <==>
               Pos(off0) + done < MAX_POS)
    ensures !overrun ==>
              forall i :: 0 <= i < |fs.inodes| && i != ino ==> Contents(fs.St(), i) == Contents(old(fs.St()), i)
    ensures !overrun ==> Pos(fs.inodes[ino].size) == Max(Pos(old(fs.inodes)[ino].size), Pos(off))
    ensures !overrun && Pos(off0) + done < MAX_POS ==> ZeroTails(fs.St())
  {
    hide Took, Need, MuchStored, fs.DevOk, fs.FreeOk, Partition, Names, SameBytes, Wrote, FsShape, ByteAt, Contents,
         Spliced, ZeroTails;
    ghost var s := fs.St();
    off, done, overrun := WriteLoop(fs, ino, off0, data, false);
    SplitSpace(s, ino, Pos(off0), |data|, done, overrun);
    if overrun { return; }
    ghost var t := fs.St();
    var size := fs.inodes[ino].size;
    if off.blkno > size.blkno || (off.blkno == size.blkno && off.offset > size.offset) {
      SetSize(fs, ino, off, true);
    } else {
      fs.SameRefl(t);
      TookNothing(t);
    }
    if done == |data| {
      TookBoth(s, t, fs.St(), Need(s, ino, Pos(off0), done, MAX_POS), {});
      assert Need(s, ino, Pos(off0), done, MAX_POS) + {} == Need(s, ino, Pos(off0), done, MAX_POS);
    }
    StillWrote(s, t, fs.St(), ino, Pos(off0), MAX_POS, data[..done]);
    OthersSame(s, fs.St(), ino, Pos(off0), data[..done]);
    SpliceEnds(Contents(s, ino), Pos(off0), data[..done]);
    if Pos(off0) + done < MAX_POS {
      WriteSplices(s, fs.St(), ino, Pos(off0), data[..done]);
    }
  }

  /** For less than 32768 bytes there is space for all of them or there is not. */
  lemma SplitSpace(s: Fs, ino: nat, p: nat, n: nat, done: nat, overrun: bool)
    requires FsShape(s) && p < MAX_POS && done <= n <= MAX_POS && MuchStored(s, ino, p, MAX_POS, n, done, overrun)
    ensures n < 32768 ==> !overrun && (done == n <==> |Need(s, ino, p, n, MAX_POS)| <= |s.stack|)
  {
    hide Need, FsShape;
    if done < n { NeedGrows(s, ino, p, done + 1, n, MAX_POS); }
  }

  /** Whatever positions were written, other files read as before. */
  lemma OthersSame(s: Fs, t: Fs, ino: nat, p: nat, data: seq<Byte>)
    requires FsShape(s) && FsShape(t) && p < MAX_POS && Wrote(s, t, ino, p, MAX_POS, data)
    requires ino < |s.inodes| == |t.inodes| && SizesOk(s.inodes) && SizesOk(t.inodes)
    requires SizeSet(s.inodes, t.inodes, ino, t.inodes[ino].size)
    ensures forall i :: 0 <= i < |s.inodes| && i != ino ==> Contents(t, i) == Contents(s, i)
  {
    hide ByteAt, FsShape;
    forall i: nat, k: nat | i < |s.inodes| && i != ino ensures ByteAt(t, i, k) == ByteAt(s, i, k) {
      assert WroteByte(s, t, ino, p, MAX_POS, data, i, k);
    }
  }

  /** A splice reaches at least as far as its data. */
  lemma SpliceEnds(c: seq<Byte>, p: nat, data: seq<Byte>)
    ensures |Spliced(c, p, data)| >= p + |data|
  {
  }

  lemma StillWrote(s: Fs, t: Fs, u: Fs, ino: nat, p0: int, m: int, data: seq<Byte>)
    requires FsShape(s) && FsShape(t) && FsShape(u) && 0 <= p0 < m && Wrote(s, t, ino, p0, m, data) && SameBytes(t, u)
    ensures Wrote(s, u, ino, p0, m, data)
  {
    forall i: nat, pos: nat ensures WroteByte(s, u, ino, p0, m, data, i, pos) {
      assert WroteByte(s, t, ino, p0, m, data, i, pos) && SameByte(t, u, i, pos);
    }
  }

  /** When the number of bytes that `readi` sets out to read does not fit its signed
      `min`, so that the first copy runs over the end of its buffer. */
  lemma ReadCountFits(size: Off, off: Off, count: nat)
    requires Normal(size) && Normal(off) && count < 65536
    ensures 0 <= ReadCount(size, off, count) < 65536
    ensures ReadCount(size, off, count) >= 32768 <==>
              count >= 32768 || (off.blkno == size.blkno && off.offset > size.offset)
  {
    hide ReadCount;
    ReadCountIs(size, off, count);
  }

  /** data is what stands in the file at position p. */
  ghost predicate IsSlice(s: Fs, ino: nat, p: int, data: seq<Byte>)
    requires FsShape(s) && ino < |s.inodes| && Normal(s.inodes[ino].size)
  {
    0 <= p && p + |data| <= Pos(s.inodes[ino].size) && data == Contents(s, ino)[p..p + |data|]
  }

  lemma ReadSlice(s: Fs, ino: nat, p: int, data: seq<Byte>)
    requires FsShape(s) && ino < |s.inodes| && Normal(s.inodes[ino].size)
    requires 0 <= p < MAX_POS && p + |data| <= Pos(s.inodes[ino].size) && ReadFrom(s, ino, p, MAX_POS, data)
    ensures IsSlice(s, ino, p, data)
  {
    hide ByteAt, FsShape;
    forall k | 0 <= k < |data| ensures data[k] == Contents(s, ino)[p + k] {
      assert Advance(p, k, MAX_POS) == p + k;
    }
  }

  /** At or before the end of the file, with a request that its arithmetic can do. */
  predicate ReadsRight(size: Off, off: Off, count: nat) {
    && Pos(off) <= Pos(size) && count < 32768
    && (size.blkno - off.blkno >= 64 ==> count <= Pos(size) - Pos(off))
  }

  /** `readi` for a regular file or directory. It changes nothing, and at or before the
      end of the file returns the bytes there, up to the end of the file, unless the
      request is too big for its signed comparisons. */
  method Readi(fs: FileSystem, ino: nat, off0: Off, count: nat)
    returns (off: Off, data: seq<Byte>, overrun: bool)
    requires fs.Valid() && fs.NoneHeld() && |fs.pool.holds| + 2 <= NBUFS
    requires ino < |fs.inodes| && IsFile(fs.inodes[ino]) && Normal(fs.inodes[ino].size)
    requires Normal(off0) && count < 65536
    modifies fs, fs.pool, fs.pool.cache
    ensures fs.Valid() && fs.pool.holds == old(fs.pool.holds)
    ensures fs.pool.peak <= Max(old(fs.pool.peak), |fs.pool.holds| + 2)
    ensures fs.St() == old(fs.St()) && fs.error == old(fs.error)
    ensures overrun <==> ReadCount(fs.inodes[ino].size, off0, count) >= 32768
    ensures !overrun ==> |data| == ReadCount(fs.inodes[ino].size, off0, count)
    ensures ReadFrom(fs.St(), ino, Pos(off0), MAX_POS, data)
    ensures Normal(off) && Pos(off) == Advance(Pos(off0), |data|, MAX_POS)
    ensures ReadsRight(fs.inodes[ino].size, off0, count) ==>
              && !overrun && |data| == Min(count, Pos(fs.inodes[ino].size) - Pos(off0))
              && IsSlice(fs.St(), ino, Pos(off0), data)
  {
    hide fs.DevOk, fs.FreeOk, Partition, Names, SameBytes, FsShape, ByteAt, ReadCount, ReadFrom, IsSlice;
    ReadCountFits(fs.inodes[ino].size, off0, count);
    off, data, overrun := ReadLoop(fs, ino, off0, ReadCount(fs.inodes[ino].size, off0, count), false);
    if ReadsRight(fs.inodes[ino].size, off0, count) {
      ReadCountExact(fs.inodes[ino].size, off0, count);
      ReadSlice(fs.St(), ino, Pos(off0), data);
    }
  }

  /** `f_trunc` as a byte-sequence operation. */
  method Truncate(fs: FileSystem, ino: nat)
    requires fs.Valid() && fs.NoneHeld() && |fs.pool.holds| + 3 <= NBUFS
    requires ino < |fs.inodes| && IsFile(fs.inodes[ino]) && SizesOk(fs.inodes) && ZeroTails(fs.St())
    modifies fs, fs.pool, fs.pool.cache
    ensures fs.Valid() && fs.pool.holds == old(fs.pool.holds)
    ensures |fs.inodes| == |old(fs.inodes)| && SizesOk(fs.inodes) && ZeroTails(fs.St())
    ensures FsShape(old(fs.St())) && Contents(fs.St(), ino) == []
    ensures fs.inodes[ino].dirty && fs.inodes == old(fs.inodes)[ino := fs.inodes[ino]]
    ensures fs.stack == old(fs.stack) + Truncations.Order(old(fs.d), old(fs.inodes)[ino].addr, 0)
    ensures forall i :: 0 <= i < |fs.inodes| && i != ino ==> Contents(fs.St(), i) == Contents(old(fs.St()), i)
  {
    hide fs.DevOk, fs.FreeOk, Partition, Names, FsShape, ByteAt, Truncations.Order;
    fs.FTrunc(ino);
  }
}
