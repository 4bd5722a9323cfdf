/** Freeing a whole file (FILESYS.C, `f_trunc` and `freeblk`): the order in which the
    blocks of a tree go onto the free stack, and why the partition survives. */
module Truncations {
  import opened Basics
  import opened Blocks
  import opened FreeChains
  import opened BlockTrees

  /** The blocks of the tree under block b in the order `freeblk` frees them. */
  function Subtree(d: Store, b: nat, level: nat): seq<nat>
    requires IsStore(d) && b < 65536
    decreases level, 257
  {
    if b == 0 then []
    else if level == 0 then [b]
    else Kids(d, b, level, 0) + [b]
  }

  /** The same for the trees under words j..255 of an indirect block, last word first. */
  function Kids(d: Store, b: nat, level: nat, j: nat): seq<nat>
    requires IsStore(d) && 0 < b < 65536 && level > 0
    decreases level, 256 - j
  {
    if j >= WORDS_PER_BLOCK then [] else Kids(d, b, level, j + 1) + Subtree(d, Word(d[b], j), level - 1)
  }

  /** How deep the tree under entry k of an inode is. */
  function RootLevel(k: nat): nat {
    if k == 19 then 2 else if k == 18 then 1 else 0
  }

  /** The blocks of entries k..19 of an inode in the order `f_trunc` frees them. */
  function Order(d: Store, addr: seq<nat>, k: nat): seq<nat>
    requires IsStore(d) && |addr| == 20 && AreWords(addr)
    decreases 20 - k
  {
    if k >= 20 then [] else Order(d, addr, k + 1) + Subtree(d, addr[k], RootLevel(k))
  }

  ghost predicate AgreeOn(d: Store, e: Store, blocks: seq<nat>) {
    forall b :: b in blocks && b in d && b in e ==> d[b] == e[b]
  }

  /** A tree depends only on its own blocks. */
  lemma {:induction false} SubtreeFrame(d: Store, e: Store, b: nat, level: nat)
    requires IsStore(d) && IsStore(e) && b < 65536 && AgreeOn(d, e, Subtree(d, b, level))
    ensures Subtree(e, b, level) == Subtree(d, b, level)
    decreases level, 257
  {
    if b != 0 && level > 0 {
      assert b in Subtree(d, b, level);
      KidsFrame(d, e, b, level, 0);
    }
  }

  lemma {:induction false} KidsFrame(d: Store, e: Store, b: nat, level: nat, j: nat)
    requires IsStore(d) && IsStore(e) && 0 < b < 65536 && level > 0
    requires d[b] == e[b] && AgreeOn(d, e, Kids(d, b, level, j))
    ensures Kids(e, b, level, j) == Kids(d, b, level, j)
    decreases level, 256 - j
  {
    if j < WORDS_PER_BLOCK {
      var w := Word(d[b], j);
      assert forall x :: x in Kids(d, b, level, j + 1) ==> x in Kids(d, b, level, j);
      assert forall x :: x in Subtree(d, w, level - 1) ==> x in Kids(d, b, level, j);
      KidsFrame(d, e, b, level, j + 1);
      SubtreeFrame(d, e, w, level - 1);
    }
  }

  /** The inode of a location, the entry it hangs from, and its place in its parent. */
  function InoOf(loc: Loc): nat
    requires !loc.Free?
  {
    loc.ino
  }

  function EntryOf(loc: Loc): nat
    requires !loc.Free?
  {
    if loc.Leaf? then 19 else loc.k
  }

  /** The location of word j of the block of pointers at loc. */
  function Child(loc: Loc, j: nat): Loc
    requires IsPointer(loc)
  {
    if loc.Root? then Sub(loc.ino, loc.k, j) else Leaf(loc.ino, loc.i, j)
  }

  predicate Node(loc: Loc) {
    !loc.Free? && (loc.Root? ==> loc.k < 20) && (loc.Sub? ==> loc.k == 18 || loc.k == 19)
  }

  function Level(loc: Loc): nat {
    match loc
    case Root(_, k) => RootLevel(k)
    case Sub(_, k, _) => if k == 19 then 1 else 0
    case Leaf(_, _, _) => 0
    case Free(_) => 0
  }

  /** Whether l is loc or a location in the tree under it. */
  predicate Under(l: Loc, loc: Loc) {
    || l == loc
    || (l.Sub? && ParentOf(l) == loc)
    || (l.Leaf? && (ParentOf(l) == loc || ParentOf(ParentOf(l)) == loc))
  }

  /** Which word of the block at loc leads to l. */
  function ChildIndex(l: Loc, loc: Loc): nat
    requires IsPointer(loc) && (l.Sub? || l.Leaf?)
  {
    if loc.Root? || l.Sub? then l.i else l.j
  }

  /** Block e belongs to a location in the tree under loc. */
  ghost predicate Belongs(s: Fs, loc: Loc, e: nat)
    requires FsShape(s)
  {
    e in s.role && Under(s.role[e], loc) && !s.role[e].Free? && At(s, s.role[e]) == e && s.isize <= e < s.fsize
  }

  lemma ChildWord(s: Fs, loc: Loc, i: nat)
    requires FsShape(s) && Node(loc) && IsPointer(loc) && At(s, loc) != 0 && i < 256
    ensures At(s, Child(loc, i)) == Word(s.d[At(s, loc)], i)
    ensures Level(Child(loc, i)) == Level(loc) - 1 && Node(Child(loc, i))
  {
  }

  lemma KidsStep(d: Store, b: nat, level: nat, j: nat)
    requires IsStore(d) && 0 < b < 65536 && level > 0 && j < WORDS_PER_BLOCK
    ensures Kids(d, b, level, j) == Kids(d, b, level, j + 1) + Subtree(d, Word(d[b], j), level - 1)
  {
  }

  /** Every block of the tree at a location belongs to it. */
  lemma {:induction false} SubtreeBelongs(s: Fs, loc: Loc, e: nat)
    requires Partition(s) && Node(loc) && e in Subtree(s.d, At(s, loc), Level(loc))
    ensures Belongs(s, loc, e)
    decreases Level(loc), 257
  {
    var b := At(s, loc);
    if e == b {
      assert Owned(s, loc);
    } else {
      KidsBelong(s, loc, 0, e);
    }
  }

  lemma {:induction false} KidsBelong(s: Fs, loc: Loc, j: nat, e: nat)
    requires Partition(s) && Node(loc) && IsPointer(loc) && At(s, loc) != 0
    requires e in Kids(s.d, At(s, loc), Level(loc), j)
    ensures Belongs(s, loc, e) && (s.role[e].Sub? || s.role[e].Leaf?)
    ensures s.role[e] != loc && j <= ChildIndex(s.role[e], loc)
    decreases Level(loc), 256 - j
  {
    if j < WORDS_PER_BLOCK {
      var b := At(s, loc);
      ChildWord(s, loc, j);
      KidsStep(s.d, b, Level(loc), j);
      assert FsShape(s);
      hide Kids, Subtree, SubAt, WordAt, Word, RootAt, Partition, FsShape;
      if e in Kids(s.d, b, Level(loc), j + 1) {
        KidsBelong(s, loc, j + 1, e);
      } else {
        SubtreeBelongs(s, Child(loc, j), e);
      }
    }
  }

  /** No block occurs twice in a tree. */
  lemma {:induction false} SubtreeNoDup(s: Fs, loc: Loc)
    requires Partition(s) && Node(loc)
    ensures NoDup(Subtree(s.d, At(s, loc), Level(loc)))
    decreases Level(loc), 257
  {
    var b := At(s, loc);
    if b != 0 && Level(loc) > 0 {
      KidsNoDup(s, loc, 0);
      NotItsOwnKid(s, loc);
      NoDupSnoc(Kids(s.d, b, Level(loc), 0), b);
    }
  }

  lemma NotItsOwnKid(s: Fs, loc: Loc)
    requires Partition(s) && Node(loc) && IsPointer(loc) && At(s, loc) != 0
    ensures At(s, loc) !in Kids(s.d, At(s, loc), Level(loc), 0)
  {
    assert Owned(s, loc);
    if At(s, loc) in Kids(s.d, At(s, loc), Level(loc), 0) {
      KidsBelong(s, loc, 0, At(s, loc));
    }
  }

  lemma NoDupSnoc(a: seq<nat>, e: nat)
    requires NoDup(a) && e !in a
    ensures NoDup(a + [e])
  {
  }

  lemma {:induction false} KidsNoDup(s: Fs, loc: Loc, j: nat)
    requires Partition(s) && Node(loc) && IsPointer(loc) && At(s, loc) != 0
    ensures NoDup(Kids(s.d, At(s, loc), Level(loc), j))
    decreases Level(loc), 256 - j
  {
    if j < WORDS_PER_BLOCK {
      var b := At(s, loc);
      ChildWord(s, loc, j);
      KidsStep(s.d, b, Level(loc), j);
      assert FsShape(s);
      hide Kids, Subtree, SubAt, WordAt, Word, RootAt, Partition, FsShape, NoDup;
      KidsNoDup(s, loc, j + 1);
      SubtreeNoDup(s, Child(loc, j));
      var left, right := Kids(s.d, b, Level(loc), j + 1), Subtree(s.d, Word(s.d[b], j), Level(loc) - 1);
      forall e | e in left && e in right ensures false {
        KidsBelong(s, loc, j + 1, e);
        SubtreeBelongs(s, Child(loc, j), e);
      }
      NoDupConcat(left, right);
    }
  }

  /** The blocks of entries k..19 of inode ino: distinct, and all of that inode. */
  lemma {:induction false} OrderBelongs(s: Fs, ino: nat, k: nat, e: nat)
    requires Partition(s) && ino < |s.inodes| && s.inodes[ino].HasTree()
    requires e in Order(s.d, s.inodes[ino].addr, k)
    ensures e in s.role && !s.role[e].Free? && At(s, s.role[e]) == e && s.isize <= e < s.fsize
    ensures InoOf(s.role[e]) == ino && k <= EntryOf(s.role[e])
    decreases 20 - k
  {
    if k < 20 {
      OrderShape(s.d, s.inodes[ino].addr, k);
      hide Order, Subtree, SubAt, WordAt, Partition;
      if e in Order(s.d, s.inodes[ino].addr, k + 1) {
        OrderBelongs(s, ino, k + 1, e);
      } else {
        SubtreeBelongs(s, Root(ino, k), e);
      }
    }
  }

  lemma {:induction false} OrderNoDup(s: Fs, ino: nat, k: nat)
    requires Partition(s) && ino < |s.inodes| && s.inodes[ino].HasTree()
    ensures NoDup(Order(s.d, s.inodes[ino].addr, k))
    decreases 20 - k
  {
    if k < 20 {
      OrderNoDup(s, ino, k + 1);
      SubtreeNoDup(s, Root(ino, k));
      var left, right := Order(s.d, s.inodes[ino].addr, k + 1), Subtree(s.d, s.inodes[ino].addr[k], RootLevel(k));
      forall e | e in left && e in right ensures false {
        OrderBelongs(s, ino, k + 1, e);
        SubtreeBelongs(s, Root(ino, k), e);
      }
      NoDupConcat(left, right);
    }
  }

  lemma OrderShape(d: Store, addr: seq<nat>, k: nat)
    requires IsStore(d) && |addr| == 20 && AreWords(addr) && k < 20
    ensures Order(d, addr, k) == Order(d, addr, k + 1) + Subtree(d, addr[k], RootLevel(k))
  {
  }

  /** The order reaches every block of the inode. */
  lemma {:induction false} OrderCovers(s: Fs, ino: nat, k: nat, loc: Loc)
    requires Partition(s) && ino < |s.inodes| && s.inodes[ino].HasTree()
    requires Node(loc) && InoOf(loc) == ino && k <= EntryOf(loc) < 20 && At(s, loc) != 0
    ensures At(s, loc) in Order(s.d, s.inodes[ino].addr, k)
    decreases 20 - k
  {
    OrderShape(s.d, s.inodes[ino].addr, k);
    hide Order, Subtree, SubAt, WordAt, Partition;
    if k < EntryOf(loc) {
      OrderCovers(s, ino, k + 1, loc);
    } else {
      SubtreeCovers(s, Root(ino, k), loc);
    }
  }

  lemma {:induction false} SubtreeCovers(s: Fs, loc: Loc, l: Loc)
    requires Partition(s) && Node(loc) && Node(l) && Under(l, loc) && At(s, l) != 0
    ensures At(s, loc) != 0 && At(s, l) in Subtree(s.d, At(s, loc), Level(loc))
    decreases Level(loc)
  {
    if l != loc {
      hide Kids, Partition;
      var j := ChildIndex(l, loc);
      assert Under(l, Child(loc, j));
      SubtreeCovers(s, Child(loc, j), l);
      KidsInclude(s.d, At(s, loc), Level(loc), 0, j, At(s, l));
    }
  }

  lemma {:induction false} KidsInclude(d: Store, b: nat, level: nat, from: nat, j: nat, e: nat)
    requires IsStore(d) && 0 < b < 65536 && level > 0 && from <= j < WORDS_PER_BLOCK
    requires e in Subtree(d, Word(d[b], j), level - 1)
    ensures e in Kids(d, b, level, from)
    decreases j - from
  {
    hide Word;
    assert Kids(d, b, level, from) == Kids(d, b, level, from + 1) + Subtree(d, Word(d[b], from), level - 1);
    if from < j { KidsInclude(d, b, level, from + 1, j, e); }
  }

  /** Block x is freed some time before block y. */
  ghost predicate Before(s: seq<nat>, x: nat, y: nat) {
    exists i, j :: 0 <= i < j < |s| && s[i] == x && s[j] == y
  }

  lemma BeforeAcross(a: seq<nat>, b: seq<nat>, x: nat, y: nat)
    requires x in a && y in b
    ensures Before(a + b, x, y)
  {
    var i :| 0 <= i < |a| && a[i] == x;
    var j :| 0 <= j < |b| && b[j] == y;
    assert (a + b)[i] == x && (a + b)[|a| + j] == y;
  }

  lemma BeforeWithin(a: seq<nat>, b: seq<nat>, c: seq<nat>, x: nat, y: nat)
    requires Before(b, x, y) && a + b <= c
    ensures Before(c, x, y)
  {
    var i, j :| 0 <= i < j < |b| && b[i] == x && b[j] == y;
    assert (a + b)[|a| + i] == x && (a + b)[|a| + j] == y;
    assert c[|a| + i] == x && c[|a| + j] == y;
  }

  lemma BeforeInPrefix(a: seq<nat>, b: seq<nat>, c: seq<nat>, x: nat, y: nat)
    requires x in a && y in b && a + b <= c
    ensures Before(c, x, y)
  {
    BeforeAcross(a, b, x, y);
    assert [] + (a + b) == a + b;
    BeforeWithin([], a + b, c, x, y);
  }

  lemma ShapeOf(s: Fs)
    requires Partition(s)
    ensures FsShape(s) && IsStore(s.d)
    ensures forall i :: 0 <= i < |s.inodes| ==> |s.inodes[i].addr| == 20 && AreWords(s.inodes[i].addr)
  {
  }

  /** Where a location behind word j of a block of pointers is freed. */
  lemma BehindWord(s: Fs, loc: Loc, j: nat, l: Loc)
    requires Partition(s) && Node(loc) && IsPointer(loc) && At(s, loc) != 0 && j < WORDS_PER_BLOCK
    requires Node(l) && Under(l, Child(loc, j)) && At(s, l) != 0
    ensures FsShape(s) && At(s, l) in Subtree(s.d, Word(s.d[At(s, loc)], j), Level(loc) - 1)
  {
    ShapeOf(s);
    ChildWord(s, loc, j);
    hide Kids, Subtree, Partition, FsShape, SubAt, WordAt, Word, RootAt, Child, Level, Under, At;
    SubtreeCovers(s, Child(loc, j), l);
  }

  /** In the tree under block b, what is behind a later word goes first. */
  lemma LaterWordFirst(d: Store, b: nat, level: nat, j: nat, k: nat, x: nat, y: nat)
    requires IsStore(d) && 0 < b < 65536 && level > 0 && j < k < WORDS_PER_BLOCK
    requires x in Subtree(d, Word(d[b], k), level - 1) && y in Subtree(d, Word(d[b], j), level - 1)
    ensures Before(Subtree(d, b, level), x, y)
  {
    hide Before, Kids, Subtree, Word;
    var upper, sub, kids := Kids(d, b, level, j + 1), Subtree(d, Word(d[b], j), level - 1), Kids(d, b, level, 0);
    KidsInclude(d, b, level, j + 1, k, x);
    KidsShape(d, b, level, j);
    KidsPrefix(d, b, level, j);
    PrefixOf(upper, sub, kids, b);
    BeforeInPrefix(upper, sub, kids + [b], x, y);
  }

  lemma WordsGoBackwards(s: Fs, loc: Loc, j: nat, l: Loc, k: nat, m: Loc)
    requires Partition(s) && Node(loc) && IsPointer(loc) && At(s, loc) != 0 && j < k < WORDS_PER_BLOCK
    requires Node(l) && Under(l, Child(loc, j)) && At(s, l) != 0
    requires Node(m) && Under(m, Child(loc, k)) && At(s, m) != 0
    ensures Before(Subtree(s.d, At(s, loc), Level(loc)), At(s, m), At(s, l))
  {
    ShapeOf(s);
    BehindWord(s, loc, j, l);
    BehindWord(s, loc, k, m);
    hide Before, Kids, Subtree, Partition, FsShape, SubAt, WordAt, Word, RootAt, Child, Under, At;
    LaterWordFirst(s.d, At(s, loc), Level(loc), j, k, At(s, m), At(s, l));
  }

  /** What is within the tree behind one word keeps its order. */
  lemma OrderWithinWord(s: Fs, loc: Loc, j: nat, x: nat, y: nat)
    requires Partition(s) && Node(loc) && IsPointer(loc) && At(s, loc) != 0 && j < WORDS_PER_BLOCK
    requires Before(Subtree(s.d, At(s, Child(loc, j)), Level(loc) - 1), x, y)
    ensures Before(Subtree(s.d, At(s, loc), Level(loc)), x, y)
  {
    ShapeOf(s);
    hide Before, Under, Kids, Subtree, Partition, FsShape, SubAt, WordAt, Word, RootAt, At, Child, Node, Level;
    var b, level := At(s, loc), Level(loc);
    ChildWord(s, loc, j);
    var upper, sub := Kids(s.d, b, level, j + 1), Subtree(s.d, Word(s.d[b], j), level - 1);
    KidsShape(s.d, b, level, j);
    KidsPrefix(s.d, b, level, j);
    PrefixOf(upper, sub, Kids(s.d, b, level, 0), b);
    BeforeWithin(upper, sub, Subtree(s.d, b, level), x, y);
  }

  /** Entries of an inode: the later one goes first, and each keeps the order of its tree. */
  lemma EntriesGoBackwards(s: Fs, ino: nat, k: nat, l: Loc, m: Loc)
    requires Partition(s) && ino < |s.inodes| && s.inodes[ino].HasTree()
    requires Node(l) && InoOf(l) == ino && EntryOf(l) == k < 20 && At(s, l) != 0
    requires Node(m) && InoOf(m) == ino && k < EntryOf(m) < 20 && At(s, m) != 0
    ensures Before(Order(s.d, s.inodes[ino].addr, 0), At(s, m), At(s, l))
  {
    ShapeOf(s);
    hide Before, Order, Subtree, Partition, FsShape, SubAt, WordAt;
    var addr := s.inodes[ino].addr;
    OrderCovers(s, ino, k + 1, m);
    SubtreeCovers(s, Root(ino, k), l);
    OrderShape(s.d, addr, k);
    OrderPrefix(s.d, addr, k);
    var upper, sub := Order(s.d, addr, k + 1), Subtree(s.d, addr[k], RootLevel(k));
    BeforeInPrefix(upper, sub, Order(s.d, addr, 0), At(s, m), At(s, l));
  }

  lemma OrderWithinEntry(s: Fs, ino: nat, k: nat, x: nat, y: nat)
    requires Partition(s) && ino < |s.inodes| && s.inodes[ino].HasTree() && k < 20
    requires Before(Subtree(s.d, At(s, Root(ino, k)), RootLevel(k)), x, y)
    ensures Before(Order(s.d, s.inodes[ino].addr, 0), x, y)
  {
    ShapeOf(s);
    hide Before, Order, Subtree, Partition, FsShape;
    var addr := s.inodes[ino].addr;
    OrderShape(s.d, addr, k);
    OrderPrefix(s.d, addr, k);
    BeforeWithin(Order(s.d, addr, k + 1), Subtree(s.d, addr[k], RootLevel(k)), Order(s.d, addr, 0), x, y);
  }

  /** A file is freed from its last block to its first, so that its blocks are allocated
      again in the order of the file. */
  lemma LastBlockFirst(s: Fs, ino: nat, bn: nat, cn: nat)
    requires Partition(s) && ino < |s.inodes| && s.inodes[ino].HasTree() && bn < cn < 65536
    requires |s.inodes[ino].addr| == 20 && AreWords(s.inodes[ino].addr)
    requires var addr := s.inodes[ino].addr; BlockOf(s.d, addr, bn) != 0 && BlockOf(s.d, addr, cn) != 0
    ensures var addr := s.inodes[ino].addr;
            Before(Order(s.d, addr, 0), BlockOf(s.d, addr, cn), BlockOf(s.d, addr, bn))
  {
    DataLocIs(s, ino, bn);
    DataLocIs(s, ino, cn);
    var l, m := DataLoc(ino, bn), DataLoc(ino, cn);
    var x, y := At(s, m), At(s, l);
    ShapeOf(s);
    hide Before, Order, Subtree, Partition, FsShape, BlockOf;
    if EntryOf(l) < EntryOf(m) {
      EntriesGoBackwards(s, ino, EntryOf(l), l, m);
    } else if l.Sub? {
      WordsGoBackwards(s, Root(ino, 18), l.i, l, m.i, m);
      OrderWithinEntry(s, ino, 18, x, y);
    } else {
      LeavesGoBackwards(s, ino, l, m);
    }
  }

  lemma LeavesGoBackwards(s: Fs, ino: nat, l: Loc, m: Loc)
    requires Partition(s) && ino < |s.inodes| && s.inodes[ino].HasTree()
    requires l.Leaf? && m.Leaf? && l.ino == m.ino == ino && At(s, l) != 0 && At(s, m) != 0
    requires l.i < m.i < 256 || (l.i == m.i < 256 && l.j < m.j < 256)
    ensures Before(Order(s.d, s.inodes[ino].addr, 0), At(s, m), At(s, l))
  {
    var x, y := At(s, m), At(s, l);
    if l.i < m.i {
      WordsGoBackwards(s, Root(ino, 19), l.i, l, m.i, m);
    } else {
      WordsGoBackwards(s, Sub(ino, 19, l.i), l.j, l, m.j, m);
      OrderWithinWord(s, Root(ino, 19), l.i, x, y);
    }
    OrderWithinEntry(s, ino, 19, x, y);
  }

  function IndexOf(s: seq<nat>, e: nat): (i: nat)
    requires e in s
    ensures i < |s| && s[i] == e
  {
    if s[0] == e then 0 else 1 + IndexOf(s[1..], e)
  }

  function FreedRole(before: Loc, freed: seq<nat>, n: nat, b: nat): Loc {
    if b in freed then Free(n + IndexOf(freed, b)) else before
  }

  /** Roles after the blocks of `freed` went onto a stack of height n. */
  function FreedRoles(role: map<nat, Loc>, freed: seq<nat>, n: nat): map<nat, Loc> {
    map b | b in role :: FreedRole(role[b], freed, n, b)
  }

  /** `bzero` of an inode's block numbers. */
  function NoBlocks(): (r: seq<nat>)
    ensures |r| == 20 && forall k :: 0 <= k < 20 ==> r[k] == 0
  {
    seq<nat>(20, _ => 0)
  }

  /** The file system after a whole file went onto the free stack: its blocks are on
      top of the stack, its inode is empty, and no other file's contents changed. */
  ghost predicate Truncated(s: Fs, t: Fs, ino: nat)
    requires FsShape(s) && FsShape(t) && ino < |s.inodes| == |t.inodes|
  {
    && t.stack == s.stack + Order(s.d, s.inodes[ino].addr, 0)
    && (forall b :: b in s.d && b !in Order(s.d, s.inodes[ino].addr, 0) ==> t.d[b] == s.d[b])
    && t.inodes == s.inodes[ino := t.inodes[ino]] && t.inodes[ino].addr == NoBlocks()
    && t.inodes[ino].mode == s.inodes[ino].mode
    && t.role == FreedRoles(s.role, Order(s.d, s.inodes[ino].addr, 0), |s.stack|)
    && t.isize == s.isize && t.fsize == s.fsize
  }

  lemma TruncatedStack(s: Fs, ino: nat)
    requires Partition(s) && ino < |s.inodes| && s.inodes[ino].HasTree()
    ensures IsFreeStack(s.stack + Order(s.d, s.inodes[ino].addr, 0), s.isize, s.fsize)
  {
    var freed := Order(s.d, s.inodes[ino].addr, 0);
    forall e | e in freed ensures e !in s.stack && s.isize <= e < s.fsize {
      OrderBelongs(s, ino, 0, e);
      if e in s.stack { StackRole(s, e); }
    }
    OrderNoDup(s, ino, 0);
    assert forall e :: e in s.stack ==> s.isize <= e < s.fsize;
    StacksJoin(s.stack, freed, s.isize, s.fsize);
  }

  lemma StackRole(s: Fs, e: nat)
    requires Partition(s) && e in s.stack
    ensures e in s.role && s.role[e].Free?
  {
    var p :| 0 <= p < |s.stack| && s.stack[p] == e;
    assert At(s, Free(p)) == e;
    assert Owned(s, Free(p));
  }

  lemma StacksJoin(a: seq<nat>, b: seq<nat>, isize: nat, fsize: nat)
    requires NoDup(a) && NoDup(b) && forall e :: e in b ==> e !in a && isize <= e < fsize
    requires forall e :: e in a ==> isize <= e < fsize
    ensures IsFreeStack(a + b, isize, fsize)
  {
    NoDupConcat(a, b);
    forall i | 0 <= i < |a + b| ensures isize <= (a + b)[i] < fsize {
      assert (a + b)[i] == if i < |a| then a[i] else b[i - |a|];
      assert if i < |a| then a[i] in a else b[i - |a|] in b;
    }
  }

  lemma TruncatedLocations(s: Fs, t: Fs, ino: nat, loc: Loc)
    requires Partition(s) && ino < |s.inodes| == |t.inodes| && s.inodes[ino].HasTree()
    requires FsShape(t) && Truncated(s, t, ino)
    ensures !loc.Free? ==> At(t, loc) == if InoOf(loc) == ino then 0 else At(s, loc)
    ensures !loc.Free? && InoOf(loc) != ino && At(s, loc) != 0 ==>
              At(s, loc) !in Order(s.d, s.inodes[ino].addr, 0) && t.d[At(s, loc)] == s.d[At(s, loc)]
    decreases match loc case Leaf(_, _, _) => 2 case Sub(_, _, _) => 1 case _ => 0
  {
    if !loc.Free? {
      if InoOf(loc) == ino {
        assert RootAt(t.inodes, ino, 18) == 0 && RootAt(t.inodes, ino, 19) == 0;
      } else {
        if loc.Sub? || loc.Leaf? {
          TruncatedLocations(s, t, ino, ParentOf(loc));
        }
        assert Owned(s, loc);
        if At(s, loc) in Order(s.d, s.inodes[ino].addr, 0) {
          OrderBelongs(s, ino, 0, At(s, loc));
        }
      }
    }
  }

  lemma FreedSlot(s: Fs, t: Fs, ino: nat, p: nat)
    requires Partition(s) && ino < |s.inodes| == |t.inodes| && s.inodes[ino].HasTree()
    requires FsShape(t) && Truncated(s, t, ino)
    ensures Owned(t, Free(p))
  {
    hide Order, FreedRole;
    var freed := Order(s.d, s.inodes[ino].addr, 0);
    assert Owned(s, Free(p));
    if |s.stack| <= p < |t.stack| {
      var i := p - |s.stack|;
      assert t.stack[p] == freed[i] && freed[i] in freed;
      OrderBelongs(s, ino, 0, freed[i]);
      OrderNoDup(s, ino, 0);
      IndexIs(freed, i);
      RoleFreed(s.role[freed[i]], freed, |s.stack|, freed[i]);
    } else if p < |s.stack| {
      var b := s.stack[p];
      assert At(s, Free(p)) == b && t.stack[p] == b;
      NotFreed(s, ino, p);
      RoleFreed(s.role[b], freed, |s.stack|, b);
    }
  }

  /** A block on the stack is not a block of the file. */
  lemma NotFreed(s: Fs, ino: nat, p: nat)
    requires Partition(s) && ino < |s.inodes| && s.inodes[ino].HasTree() && p < |s.stack|
    ensures s.stack[p] !in Order(s.d, s.inodes[ino].addr, 0) && s.stack[p] in s.role && s.role[s.stack[p]] == Free(p)
  {
    hide Order;
    assert At(s, Free(p)) == s.stack[p] && Owned(s, Free(p));
    if s.stack[p] in Order(s.d, s.inodes[ino].addr, 0) { OrderBelongs(s, ino, 0, s.stack[p]); }
  }

  lemma IndexIs(s: seq<nat>, i: nat)
    requires NoDup(s) && i < |s|
    ensures IndexOf(s, s[i]) == i
  {
  }

  lemma RoleFreed(before: Loc, freed: seq<nat>, n: nat, b: nat)
    ensures FreedRole(before, freed, n, b) == if b in freed then Free(n + IndexOf(freed, b)) else before
  {
  }

  lemma LocatedAfter(s: Fs, t: Fs, ino: nat, b: nat)
    requires Partition(s) && ino < |s.inodes| == |t.inodes| && s.inodes[ino].HasTree()
    requires FsShape(t) && Truncated(s, t, ino)
    ensures Located(t, b)
  {
    assert FsShape(s);
    hide Order, FreedRole, Partition, Truncated, IsStore, InodesOk;
    if s.isize <= b < s.fsize {
      RoleFound(s, b);
      RoleAfter(s, t, ino, b);
      if b !in Order(s.d, s.inodes[ino].addr, 0) { StillLocated(s, t, ino, s.role[b]); }
    }
  }

  /** The role of a block after truncation: a slot of the stack if it was the file's. */
  lemma RoleAfter(s: Fs, t: Fs, ino: nat, b: nat)
    requires FsShape(s) && FsShape(t) && ino < |s.inodes| == |t.inodes| && Truncated(s, t, ino) && b in s.role
    ensures t.isize == s.isize && t.fsize == s.fsize && b in t.role
    ensures if b in Order(s.d, s.inodes[ino].addr, 0) then b == At(t, t.role[b]) else t.role[b] == s.role[b]
  {
    hide Order;
    var freed := Order(s.d, s.inodes[ino].addr, 0);
    if b in freed { StackTop(s.stack, freed, IndexOf(freed, b)); }
  }

  lemma RoleFound(s: Fs, b: nat)
    requires Partition(s) && s.isize <= b < s.fsize
    ensures b in s.role && At(s, s.role[b]) == b
  {
    assert Located(s, b);
  }

  lemma StackTop(stack: seq<nat>, freed: seq<nat>, i: nat)
    requires i < |freed|
    ensures (stack + freed)[|stack| + i] == freed[i]
  {
  }

  lemma StillLocated(s: Fs, t: Fs, ino: nat, loc: Loc)
    requires Partition(s) && ino < |s.inodes| == |t.inodes| && s.inodes[ino].HasTree()
    requires FsShape(t) && Truncated(s, t, ino)
    requires At(s, loc) != 0 && At(s, loc) !in Order(s.d, s.inodes[ino].addr, 0)
    ensures At(t, loc) == At(s, loc)
  {
    hide Order;
    if !loc.Free? {
      TruncatedLocations(s, t, ino, loc);
      if InoOf(loc) == ino { OrderCovers(s, ino, 0, loc); }
    }
  }

  /** Truncation keeps the partition, empties the file and leaves the others alone. */
  lemma TruncateKeepsPartition(s: Fs, t: Fs, ino: nat)
    requires Partition(s) && ino < |s.inodes| == |t.inodes| && s.inodes[ino].HasTree()
    requires FsShape(t) && Truncated(s, t, ino)
    ensures Partition(t)
    ensures forall i: nat, pos: nat :: (ByteAt(t, i, pos) == if i == ino then 0 else ByteAt(s, i, pos))
  {
    forall loc ensures Owned(t, loc) {
      if loc.Free? {
        FreedSlot(s, t, ino, loc.p);
      } else {
        OwnedAfter(s, t, ino, loc);
      }
    }
    forall b: nat ensures Located(t, b) {
      LocatedAfter(s, t, ino, b);
    }
    forall i: nat, pos: nat ensures ByteAt(t, i, pos) == if i == ino then 0 else ByteAt(s, i, pos) {
      TruncatedLocations(s, t, ino, DataLoc(i, pos / 512));
    }
  }

  lemma OwnedAfter(s: Fs, t: Fs, ino: nat, loc: Loc)
    requires Partition(s) && ino < |s.inodes| == |t.inodes| && s.inodes[ino].HasTree() && !loc.Free?
    requires FsShape(t) && Truncated(s, t, ino)
    ensures Owned(t, loc)
  {
    TruncatedLocations(s, t, ino, loc);
    assert Owned(s, loc);
  }

  /** Devices that differ in the given blocks only. */
  ghost predicate SameOutside(d: Store, e: Store, blocks: seq<nat>)
    requires IsStore(d) && IsStore(e)
  {
    forall b :: 0 <= b < 65536 && b !in blocks ==> e[b] == d[b]
  }

  lemma OutsideJoins(d: Store, e: Store, f: Store, a: seq<nat>, b: seq<nat>)
    requires IsStore(d) && IsStore(e) && IsStore(f) && SameOutside(d, e, a) && SameOutside(e, f, b)
    ensures SameOutside(d, f, a + b)
  {
  }

  lemma {:induction false} KidsPrefix(d: Store, b: nat, level: nat, j: nat)
    requires IsStore(d) && 0 < b < 65536 && level > 0 && j <= WORDS_PER_BLOCK
    ensures Kids(d, b, level, j) <= Kids(d, b, level, 0)
    decreases j
  {
    hide Kids;
    if j > 0 {
      KidsPrefix(d, b, level, j - 1);
      KidsGrow(d, b, level, j - 1);
    }
  }

  lemma KidsGrow(d: Store, b: nat, level: nat, j: nat)
    requires IsStore(d) && 0 < b < 65536 && level > 0 && j < WORDS_PER_BLOCK
    ensures Kids(d, b, level, j + 1) <= Kids(d, b, level, j)
  {
    hide Subtree;
  }

  lemma FreeStackPrefix(a: seq<nat>, b: seq<nat>, isize: nat, fsize: nat)
    requires IsFreeStack(b, isize, fsize) && a <= b
    ensures IsFreeStack(a, isize, fsize)
  {
    assert forall i :: 0 <= i < |a| ==> a[i] == b[i];
  }

  lemma FreeStackDisjoint(a: seq<nat>, b: seq<nat>, isize: nat, fsize: nat)
    requires IsFreeStack(a + b, isize, fsize)
    ensures forall e :: e in b ==> e !in a && isize <= e < fsize
  {
    forall e | e in b ensures e !in a && isize <= e < fsize {
      var j :| 0 <= j < |b| && b[j] == e;
      assert (a + b)[|a| + j] == e;
      forall i | 0 <= i < |a| ensures a[i] != e {
        assert (a + b)[i] == a[i];
      }
    }
  }

  /** Half-way through the words of an indirect block: the trees under words above j
      are free, the one under word j is untouched and can go next. */
  lemma NextKid(d: Store, e: Store, stack: seq<nat>, b: nat, level: nat, j: nat, isize: nat, fsize: nat)
    requires IsStore(d) && IsStore(e) && 0 < b < 65536 && level > 0 && j < WORDS_PER_BLOCK
    requires IsFreeStack(stack + Subtree(d, b, level), isize, fsize)
    requires SameOutside(d, e, Kids(d, b, level, j + 1))
    ensures e[b] == d[b]
    ensures var w := Word(d[b], j);
            && Subtree(e, w, level - 1) == Subtree(d, w, level - 1)
            && IsFreeStack(stack + Kids(d, b, level, j + 1) + Subtree(d, w, level - 1), isize, fsize)
            && Kids(d, b, level, j) == Kids(d, b, level, j + 1) + Subtree(d, w, level - 1)
            && (forall x :: x in Subtree(d, w, level - 1) ==> x in Subtree(d, b, level) && x != b)
  {
    hide Kids, Subtree, IsFreeStack, SameOutside, Word, AgreeOn;
    var w := Word(d[b], j);
    var upper, sub := Kids(d, b, level, j + 1), Subtree(d, w, level - 1);
    var kids := Kids(d, b, level, 0);
    KidsShape(d, b, level, j);
    KidsPrefix(d, b, level, j);
    PrefixOf(upper, sub, kids, b);
    GoesNext(stack, upper, sub, kids + [b], isize, fsize);
    SelfLast(stack, kids, b, isize, fsize);
    NotTouched(d, e, upper, sub, b);
    SubtreeFrame(d, e, w, level - 1);
  }

  lemma KidsShape(d: Store, b: nat, level: nat, j: nat)
    requires IsStore(d) && 0 < b < 65536 && level > 0 && j < WORDS_PER_BLOCK
    ensures Kids(d, b, level, j) == Kids(d, b, level, j + 1) + Subtree(d, Word(d[b], j), level - 1)
    ensures Subtree(d, b, level) == Kids(d, b, level, 0) + [b]
  {
    KidsStep(d, b, level, j);
  }

  lemma PrefixOf(upper: seq<nat>, sub: seq<nat>, kids: seq<nat>, b: nat)
    requires upper + sub <= kids
    ensures upper + sub <= kids + [b]
    ensures forall x :: x in upper || x in sub ==> x in kids
  {
    forall x | x in upper || x in sub ensures x in kids {
      assert x in upper + sub;
    }
  }

  lemma SelfLast(stack: seq<nat>, kids: seq<nat>, b: nat, isize: nat, fsize: nat)
    requires IsFreeStack(stack + (kids + [b]), isize, fsize)
    ensures b !in kids
  {
    hide IsFreeStack;
    assert stack + (kids + [b]) == (stack + kids) + [b];
    FreeStackDisjoint(stack + kids, [b], isize, fsize);
    assert b in [b];
  }

  /** What is outside the freed blocks is as it was. */
  lemma NotTouched(d: Store, e: Store, freed: seq<nat>, sub: seq<nat>, b: nat)
    requires IsStore(d) && IsStore(e) && SameOutside(d, e, freed) && b !in freed && b < 65536
    requires forall x :: x in sub ==> x !in freed
    ensures e[b] == d[b] && AgreeOn(d, e, sub)
  {
  }

  /** The blocks that go onto the stack next are distinct from those on it. */
  lemma GoesNext(stack: seq<nat>, upper: seq<nat>, sub: seq<nat>, all: seq<nat>, isize: nat, fsize: nat)
    requires IsFreeStack(stack + all, isize, fsize) && upper + sub <= all
    ensures IsFreeStack(stack + upper + sub, isize, fsize)
    ensures forall e :: e in sub ==> e !in upper
  {
    hide IsFreeStack;
    assert stack + upper + sub == stack + (upper + sub) <= stack + all;
    FreeStackPrefix(stack + upper + sub, stack + all, isize, fsize);
    FreeStackDisjoint(stack + upper, sub, isize, fsize);
  }

  lemma {:induction false} OrderPrefix(d: Store, addr: seq<nat>, k: nat)
    requires IsStore(d) && |addr| == 20 && AreWords(addr) && k <= 20
    ensures Order(d, addr, k) <= Order(d, addr, 0)
    decreases k
  {
    hide Order;
    if k > 0 {
      OrderPrefix(d, addr, k - 1);
      OrderGrows(d, addr, k - 1);
    }
  }

  lemma OrderGrows(d: Store, addr: seq<nat>, k: nat)
    requires IsStore(d) && |addr| == 20 && AreWords(addr) && k < 20
    ensures Order(d, addr, k + 1) <= Order(d, addr, k)
  {
    hide Subtree;
  }

  /** Half-way through the entries of an inode: the same for the tree of entry k. */
  lemma NextRoot(d: Store, e: Store, stack: seq<nat>, addr: seq<nat>, k: nat, isize: nat, fsize: nat)
    requires IsStore(d) && IsStore(e) && |addr| == 20 && AreWords(addr) && k < 20
    requires IsFreeStack(stack + Order(d, addr, 0), isize, fsize)
    requires SameOutside(d, e, Order(d, addr, k + 1))
    ensures Subtree(e, addr[k], RootLevel(k)) == Subtree(d, addr[k], RootLevel(k))
    ensures IsFreeStack(stack + Order(d, addr, k + 1) + Subtree(d, addr[k], RootLevel(k)), isize, fsize)
    ensures Order(d, addr, k) == Order(d, addr, k + 1) + Subtree(d, addr[k], RootLevel(k))
  {
    var upper, sub := Order(d, addr, k + 1), Subtree(d, addr[k], RootLevel(k));
    assert Order(d, addr, k) == upper + sub;
    OrderPrefix(d, addr, k);
    hide Order, IsFreeStack;
    GoesNext(stack, upper, sub, Order(d, addr, 0), isize, fsize);
    SubtreeFrame(d, e, addr[k], RootLevel(k));
  }
}
