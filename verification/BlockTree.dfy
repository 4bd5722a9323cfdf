/** Where a file's blocks are (FILESYS.C, `bmap`): 18 direct pointers, one single and
    one double indirect tree. Every pointer slot of the device, and every place on the
    free stack, is a location; the partition invariant says that data blocks and
    non-zero locations correspond one to one. */
module BlockTrees {
  import opened Basics
  import opened Blocks
  import opened FreeChains

  datatype Mode = F_REG | F_DIR | F_PIPE | F_BDEV | F_CDEV | F_NONE

  /** A file offset: block number and offset within the block. */
  datatype Off = Off(blkno: int, offset: int)

  datatype Dinode = Dinode(mode: Mode, addr: seq<nat>, size: Off, dirty: bool) {
    /** `i_addr` holds block numbers; in a device inode its first entry is a device. */
    predicate HasTree() {
      mode == F_REG || mode == F_DIR || mode == F_PIPE
    }

    predicate Ok() {
      |addr| == 20 && AreWords(addr)
    }
  }

  predicate InodesOk(inodes: seq<Dinode>) {
    forall i :: 0 <= i < |inodes| ==> inodes[i].Ok()
  }

  /** A place that can hold a block number: entry k of an inode, word i of the block
      that entry 18 or 19 names, word j of a second-level block, a free-stack slot. */
  datatype Loc = Root(ino: nat, k: nat) | Sub(ino: nat, k: nat, i: nat) | Leaf(ino: nat, i: nat, j: nat) | Free(p: nat)

  /** The device as the block layer of one file system sees it; role is the location
      each data block belongs to. */
  datatype Fs = Fs(d: Store, inodes: seq<Dinode>, stack: seq<nat>, role: map<nat, Loc>, isize: nat, fsize: nat)

  ghost predicate FsShape(s: Fs) {
    && IsStore(s.d) && InodesOk(s.inodes)
    && 0 < s.isize < s.fsize < 65536
    && IsFreeStack(s.stack, s.isize, s.fsize)
  }

  function RootAt(inodes: seq<Dinode>, ino: nat, k: nat): (b: nat)
    requires InodesOk(inodes)
    ensures b < 65536
  {
    if ino < |inodes| && inodes[ino].HasTree() && k < 20 then inodes[ino].addr[k] else 0
  }

  /** Word i of block b, where no block means no pointer. */
  function WordAt(d: Store, b: nat, i: nat): (w: nat)
    requires IsStore(d) && b < 65536
    ensures w < 65536
  {
    if b == 0 || i >= WORDS_PER_BLOCK then 0 else Word(d[b], i)
  }

  function SubAt(d: Store, inodes: seq<Dinode>, ino: nat, k: nat, i: nat): (b: nat)
    requires IsStore(d) && InodesOk(inodes)
    ensures b < 65536
  {
    if k == 18 || k == 19 then WordAt(d, RootAt(inodes, ino, k), i) else 0
  }

  /** The block number at a location, 0 for none. */
  function At(s: Fs, loc: Loc): (b: nat)
    requires FsShape(s)
    ensures b < 65536
  {
    match loc
    case Root(ino, k) => RootAt(s.inodes, ino, k)
    case Sub(ino, k, i) => SubAt(s.d, s.inodes, ino, k, i)
    case Leaf(ino, i, j) => WordAt(s.d, SubAt(s.d, s.inodes, ino, 19, i), j)
    case Free(p) => if p < |s.stack| then s.stack[p] else 0
  }

  /** Locations whose block holds pointers. */
  predicate IsPointer(loc: Loc) {
    match loc
    case Root(_, k) => k >= 18
    case Sub(_, k, _) => k == 19
    case Leaf(_, _, _) => false
    case Free(_) => false
  }

  /** The block of pointers that a location lies in, if it lies in one. */
  function ParentOf(loc: Loc): Loc
    requires loc.Sub? || loc.Leaf?
  {
    match loc
    case Sub(ino, k, i) => Root(ino, k)
    case Leaf(ino, i, j) => Sub(ino, 19, i)
  }

  ghost predicate Owned(s: Fs, loc: Loc)
    requires FsShape(s)
  {
    At(s, loc) != 0 ==> s.isize <= At(s, loc) < s.fsize && At(s, loc) in s.role && s.role[At(s, loc)] == loc
  }

  ghost predicate Located(s: Fs, b: nat)
    requires FsShape(s)
  {
    s.isize <= b < s.fsize ==> b in s.role && At(s, s.role[b]) == b
  }

  /** Every data block is at exactly one location, and every location that is not
      empty names a data block of its own. */
  ghost predicate Partition(s: Fs) {
    && FsShape(s)
    && (forall loc {:trigger Owned(s, loc)} :: Owned(s, loc))
    && (forall b: nat {:trigger Located(s, b)} :: Located(s, b))
  }

  /** The location of block bn of a file. */
  function DataLoc(ino: nat, bn: nat): (loc: Loc)
    ensures !IsPointer(loc) && !loc.Free?
  {
    if bn < 18 then Root(ino, bn)
    else if bn < 18 + 256 then Sub(ino, 18, bn - 18)
    else Leaf(ino, (bn - 274) / 256, (bn - 274) % 256)
  }

  /** The number of block bn of a file, word by word from its inode on: 18 block numbers,
      then 256 in the block that entry 18 names, then 256 in each of the blocks named in
      the one that entry 19 names. 0 is none. */
  function BlockOf(d: Store, addr: seq<nat>, bn: nat): (b: nat)
    requires IsStore(d) && |addr| == 20 && AreWords(addr) && bn < 65536
    ensures b < 65536
  {
    if bn < 18 then addr[bn]
    else if bn < 274 then
      if addr[18] == 0 then 0 else Word(d[addr[18]], bn - 18)
    else if addr[19] == 0 then 0
    else
      var middle := Word(d[addr[19]], (bn - 274) / 256);
      if middle == 0 then 0 else Word(d[middle], (bn - 274) % 256)
  }

  /** The locations of file blocks are where those words are. */
  lemma DataLocIs(s: Fs, ino: nat, bn: nat)
    requires FsShape(s) && ino < |s.inodes| && s.inodes[ino].HasTree() && bn < 65536
    ensures |s.inodes[ino].addr| == 20 && AreWords(s.inodes[ino].addr)
    ensures At(s, DataLoc(ino, bn)) == BlockOf(s.d, s.inodes[ino].addr, bn)
  {
  }

  lemma DataLocInjective(ino: nat, bn: nat, ino': nat, bn': nat)
    requires DataLoc(ino, bn) == DataLoc(ino', bn')
    ensures ino == ino' && bn == bn'
  {
  }

  /** Byte pos of a file's storage; unallocated blocks read as zeros. */
  function ByteAt(s: Fs, ino: nat, pos: nat): Byte
    requires FsShape(s)
  {
    var b := At(s, DataLoc(ino, pos / 512));
    if b == 0 then 0 else s.d[b][pos % 512]
  }

  ghost predicate SameByte(s: Fs, t: Fs, ino: nat, pos: nat)
    requires FsShape(s) && FsShape(t)
  {
    ByteAt(s, ino, pos) == ByteAt(t, ino, pos)
  }

  /** No file's contents differ. */
  ghost predicate SameBytes(s: Fs, t: Fs)
    requires FsShape(s) && FsShape(t)
  {
    forall ino: nat, pos: nat {:trigger SameByte(s, t, ino, pos)} :: SameByte(s, t, ino, pos)
  }

  /** A pointer block in use is neither free nor a block of file data. */
  lemma PointerBlock(s: Fs, loc: Loc, other: Loc)
    requires Partition(s) && At(s, loc) != 0 && At(s, loc) == At(s, other)
    ensures loc == other
  {
    assert Owned(s, loc) && Owned(s, other);
  }

  /** What storing nb at location `at` does to the state: the device block behind `at`,
      or the inode, changes in one word. */
  ghost predicate Stored(s: Fs, t: Fs, at: Loc, nb: nat)
    requires FsShape(s) && FsShape(t) && nb < 65536
  {
    match at
    case Root(ino, k) =>
      && ino < |s.inodes| && s.inodes[ino].HasTree() && k < 20
      && t.d == s.d && (t.inodes == s.inodes[ino := s.inodes[ino].(addr := s.inodes[ino].addr[k := nb], dirty := true)])
    case Sub(ino, k, i) =>
      && (k == 18 || k == 19) && i < 256 && At(s, ParentOf(at)) != 0
      && t.inodes == s.inodes && t.d == s.d[At(s, ParentOf(at)) := PutWords(s.d[At(s, ParentOf(at))], i, [nb])]
    case Leaf(ino, i, j) =>
      && j < 256 && At(s, ParentOf(at)) != 0
      && t.inodes == s.inodes && t.d == s.d[At(s, ParentOf(at)) := PutWords(s.d[At(s, ParentOf(at))], j, [nb])]
    case Free(_) => false
  }

  /** After a zeroed block was taken off the free stack: every location but its own
      stack slot is as before. */
  lemma PopLocations(s: Fs, t: Fs, loc: Loc)
    requires Partition(s) && s.stack != [] && FsShape(t)
    requires var nb := s.stack[|s.stack| - 1];
             t.stack == s.stack[..|s.stack| - 1] && t.inodes == s.inodes && t.d == s.d[nb := ZeroBlock()]
    ensures At(t, loc) == if loc == Free(|s.stack| - 1) then 0 else At(s, loc)
  {
    var nb := s.stack[|s.stack| - 1];
    var top := Free(|s.stack| - 1);
    assert At(s, top) == nb;
    if (loc.Sub? || loc.Leaf?) && At(s, ParentOf(loc)) == nb {
      PointerBlock(s, top, ParentOf(loc));
    }
    if loc.Leaf? && At(s, Root(loc.ino, 19)) == nb {
      PointerBlock(s, top, Root(loc.ino, 19));
    }
  }

  /** No other location names the block that `at` lies in, and it is not nb. */
  ghost predicate SoleParent(s: Fs, at: Loc, nb: nat)
    requires FsShape(s)
  {
    at.Sub? || at.Leaf? ==>
      && At(s, ParentOf(at)) != nb
      && forall l {:trigger At(s, l)} :: At(s, l) != 0 && At(s, l) == At(s, ParentOf(at)) ==> l == ParentOf(at)
  }

  /** Words of the second block's worth of storage after one word of block p changed. */
  lemma WordStored(d: Store, p: nat, i: nat, nb: nat, b: nat, k: nat)
    requires IsStore(d) && 0 < p < 65536 && i < 256 && nb < 65536 && b < 65536
    ensures WordAt(d[p := PutWords(d[p], i, [nb])], b, k) == if b == p && k == i then nb else WordAt(d, b, k)
  {
    if k < 256 { WordAfterPut(d[p], i, [nb], k); }
  }

  lemma SubStored(s: Fs, t: Fs, at: Loc, nb: nat, ino: nat, k: nat, i: nat)
    requires FsShape(s) && FsShape(t) && 0 < nb < 65536 && Stored(s, t, at, nb) && At(s, at) == 0
    requires s.d[nb] == ZeroBlock() && SoleParent(s, at, nb)
    ensures SubAt(t.d, t.inodes, ino, k, i) == if at == Sub(ino, k, i) then nb else SubAt(s.d, s.inodes, ino, k, i)
  {
    if at.Sub? || at.Leaf? {
      var p := At(s, ParentOf(at));
      var b := RootAt(s.inodes, ino, k);
      WordStored(s.d, p, if at.Sub? then at.i else at.j, nb, b, i);
      assert At(s, Root(ino, k)) == b;
    }
  }

  /** Storing block nb at an empty location changes that location only; the words of
      the new block, all zero, are the only other candidates. */
  lemma StoreLocations(s: Fs, t: Fs, at: Loc, nb: nat, loc: Loc)
    requires FsShape(s) && FsShape(t) && 0 < nb < 65536 && Stored(s, t, at, nb) && At(s, at) == 0
    requires t.stack == s.stack && s.d[nb] == ZeroBlock() && SoleParent(s, at, nb)
    ensures At(t, loc) == if loc == at then nb else At(s, loc)
  {
    match loc
    case Root(ino, k) =>
    case Free(p) =>
    case Sub(ino, k, i) =>
      SubStored(s, t, at, nb, ino, k, i);
    case Leaf(ino, i, j) =>
      SubStored(s, t, at, nb, ino, 19, i);
      var m := SubAt(s.d, s.inodes, ino, 19, i);
      if at.Sub? || at.Leaf? {
        var p := At(s, ParentOf(at));
        WordStored(s.d, p, if at.Sub? then at.i else at.j, nb, m, j);
        WordStored(s.d, p, if at.Sub? then at.i else at.j, nb, nb, j);
        assert At(s, Sub(ino, 19, i)) == m;
      }
  }

  /** Taking the top block off the stack and storing it at an empty location keeps
      the partition. */
  lemma LinkKeepsPartition(s: Fs, u: Fs, t: Fs, at: Loc)
    requires Partition(s) && FsShape(u) && FsShape(t) && s.stack != [] && At(s, at) == 0 && !at.Free?
    requires var nb := s.stack[|s.stack| - 1];
             && u == s.(stack := s.stack[..|s.stack| - 1], d := s.d[nb := ZeroBlock()])
             && Stored(u, t, at, nb) && t.stack == u.stack && t.role == s.role[nb := at]
             && t.isize == s.isize && t.fsize == s.fsize
    ensures Partition(t)
    ensures SameBytes(s, t)
    ensures forall loc :: (At(t, loc) ==
      (if loc == at then s.stack[|s.stack| - 1] else if loc == Free(|s.stack| - 1) then 0 else At(s, loc)))
  {
    var nb := s.stack[|s.stack| - 1];
    var top := Free(|s.stack| - 1);
    assert At(s, top) == nb;
    assert Owned(s, top);
    forall loc ensures At(u, loc) == if loc == top then 0 else At(s, loc) {
      PopLocations(s, u, loc);
    }
    assert SoleParent(u, at, nb) by {
      forall l | (at.Sub? || at.Leaf?) && At(u, l) != 0 && At(u, l) == At(u, ParentOf(at)) ensures l == ParentOf(at) {
        PointerBlock(s, l, ParentOf(at));
      }
      if (at.Sub? || at.Leaf?) && At(u, ParentOf(at)) == nb {
        PointerBlock(s, top, ParentOf(at));
      }
    }
    forall loc ensures At(t, loc) == if loc == at then nb else if loc == top then 0 else At(s, loc) {
      StoreLocations(u, t, at, nb, loc);
    }
    forall loc ensures Owned(t, loc) {
      assert Owned(s, loc);
      if loc != at && loc != top && At(s, loc) == nb { PointerBlock(s, loc, top); }
    }
    forall b: nat ensures Located(t, b) {
      assert Located(s, b);
    }
    forall ino: nat, pos: nat ensures SameByte(s, t, ino, pos) {
      var loc := DataLoc(ino, pos / 512);
      LinkKeepsData(s, t, at, loc);
    }
  }

  lemma LinkKeepsData(s: Fs, t: Fs, at: Loc, loc: Loc)
    requires Partition(s) && FsShape(t) && s.stack != [] && At(s, at) == 0 && !at.Free? && !loc.Free? && !IsPointer(loc)
    requires var nb := s.stack[|s.stack| - 1];
             && Stored(s.(stack := s.stack[..|s.stack| - 1], d := s.d[nb := ZeroBlock()]), t, at, nb)
             && At(t, loc) == if loc == at then nb else At(s, loc)
    ensures At(s, loc) != 0 ==> At(t, loc) == At(s, loc) && t.d[At(s, loc)] == s.d[At(s, loc)]
    ensures At(s, loc) == 0 && At(t, loc) != 0 ==> t.d[At(t, loc)] == ZeroBlock()
  {
    var nb := s.stack[|s.stack| - 1];
    var top := Free(|s.stack| - 1);
    var u := s.(stack := s.stack[..|s.stack| - 1], d := s.d[nb := ZeroBlock()]);
    assert At(s, top) == nb;
    if At(s, loc) == nb { PointerBlock(s, loc, top); }
    if at.Sub? || at.Leaf? {
      PopLocations(s, u, ParentOf(at));
      if At(s, loc) == At(s, ParentOf(at)) && At(s, loc) != 0 { PointerBlock(s, loc, ParentOf(at)); }
      if nb == At(s, ParentOf(at)) { PointerBlock(s, top, ParentOf(at)); }
    }
  }

  /** Inode tables that differ in sizes and dirty flags only. */
  predicate SameTrees(a: seq<Dinode>, b: seq<Dinode>) {
    && |a| == |b|
    && forall i :: 0 <= i < |a| ==> a[i].addr == b[i].addr && a[i].mode == b[i].mode
  }

  /** Overwriting a block of file data changes that file's block, and nothing else. */
  lemma WriteKeepsPartition(s: Fs, t: Fs, ino: nat, bn: nat, x: Block)
    requires Partition(s) && FsShape(t) && At(s, DataLoc(ino, bn)) != 0
    requires t == s.(d := s.d[At(s, DataLoc(ino, bn)) := x], inodes := t.inodes) && SameTrees(s.inodes, t.inodes)
    ensures Partition(t)
    ensures forall loc :: At(t, loc) == At(s, loc)
    ensures At(s, DataLoc(ino, bn)) !in s.stack
    ensures forall i: nat, pos: nat :: (ByteAt(t, i, pos) ==
              if i == ino && pos / 512 == bn then x[pos % 512] else ByteAt(s, i, pos))
  {
    var at := DataLoc(ino, bn);
    var b := At(s, at);
    forall loc ensures At(t, loc) == At(s, loc) {
      if (loc.Sub? || loc.Leaf?) && At(s, ParentOf(loc)) == b { PointerBlock(s, at, ParentOf(loc)); }
      if loc.Leaf? && At(s, Root(loc.ino, 19)) == b { PointerBlock(s, at, Root(loc.ino, 19)); }
    }
    forall loc ensures Owned(t, loc) { assert Owned(s, loc); }
    forall c: nat ensures Located(t, c) { assert Located(s, c); }
    if b in s.stack {
      var p :| 0 <= p < |s.stack| && s.stack[p] == b;
      assert At(s, Free(p)) == b;
      PointerBlock(s, at, Free(p));
    }
    forall i: nat, pos: nat
      ensures ByteAt(t, i, pos) == if i == ino && pos / 512 == bn then x[pos % 512] else ByteAt(s, i, pos)
    {
      var loc := DataLoc(i, pos / 512);
      if At(s, loc) == b {
        PointerBlock(s, at, loc);
        DataLocInjective(ino, bn, i, pos / 512);
      }
    }
  }

  /** Sizes and dirty flags are no part of the block structure. */
  lemma SameTreesKeep(s: Fs, t: Fs)
    requires Partition(s) && FsShape(t) && t == s.(inodes := t.inodes) && SameTrees(s.inodes, t.inodes)
    ensures Partition(t) && SameBytes(s, t)
    ensures forall loc :: At(t, loc) == At(s, loc)
  {
    forall loc ensures At(t, loc) == At(s, loc) {}
    forall loc ensures Owned(t, loc) { assert Owned(s, loc); }
    forall b: nat ensures Located(t, b) { assert Located(s, b); }
  }
}
