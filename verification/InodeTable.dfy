/** The in-core inode table and path lookup (FILESYS.C): `i_open`, `i_ref`, `i_deref`,
    `srch_mt` and `n_open`. Lookup takes and drops references as it goes along a path,
    through mount points, and up again; in the end the books balance. */
module InodeTable {
  import opened Basics
  import opened BlockTrees

  const ITABSIZE := 45
  const NDEVS := 4

  /** An inode, as far as lookup looks at it. */
  datatype Node = Node(mode: Mode, nlink: nat, exec: bool)

  datatype Slot = Slot(dev: int, num: nat, refs: nat, node: Node, dirty: bool)

  /** A file system table entry: mntpt is the slot of the inode it is mounted on. */
  datatype Mount = Mount(mounted: bool, mntpt: int, isize: nat)

  datatype Entry = NotFound | Found(num: nat)

  const NULLINODE := -1

  /** A reference held on slot i, if x is that slot. */
  function Held(i: int, x: int): nat {
    if i == x then 1 else 0
  }

  /** At most one slot per inode. */
  predicate Unique(t: seq<Slot>) {
    forall i, j :: 0 <= i < j < |t| && t[i].dev == t[j].dev && t[i].num == t[j].num ==> t[i].num == 0
  }

  /** Inodes in use are on the root device or on a mounted one. */
  predicate SlotsOk(t: seq<Slot>, mounts: seq<Mount>, rootdev: int) {
    && |t| == ITABSIZE && |mounts| == NDEVS
    && forall i :: 0 <= i < ITABSIZE && t[i].refs > 0 ==>
         && 0 <= t[i].dev < NDEVS && (t[i].dev == rootdev || mounts[t[i].dev].mntpt != NULLINODE)
         && t[i].num != 0
  }

  /** The slots in use are still those of the same inodes. */
  predicate SameInodes(t: seq<Slot>, u: seq<Slot>) {
    |t| == |u| && forall i :: 0 <= i < |t| && t[i].refs > 0 ==> u[i].dev == t[i].dev && u[i].num == t[i].num
  }

  /** An inode in the table that is not marked dirty is on the disk as it is in the table,
      and only inodes in use are marked dirty: a slot can be used again at no loss. */
  ghost predicate Written(t: seq<Slot>, disk: imap<(int, nat), Node>) {
    && (forall d, n :: (d, n) in disk)
    && forall i :: 0 <= i < |t| ==>
         && (t[i].dirty ==> t[i].refs > 0)
         && (!t[i].dirty && t[i].num != 0 ==> disk[(t[i].dev, t[i].num)] == t[i].node)
  }

  /** The reference counts of u are those of t, with one more for x and for y each. */
  predicate Adds(t: seq<Slot>, u: seq<Slot>, x: int, y: int) {
    |t| == |u| && forall i :: 0 <= i < |t| ==> u[i].refs == t[i].refs + Held(i, x) + Held(i, y)
  }

  /** Without links an inode is free. */
  function Freed(n: Node): Node {
    if n.nlink == 0 then n.(mode := F_NONE) else n
  }

  /** What is truncated when the last reference goes: not a device. */
  predicate LosesBlocks(n: Node) {
    n.nlink == 0 && (n.mode == F_REG || n.mode == F_DIR || n.mode == F_PIPE)
  }

  ghost predicate InTable(t: seq<Slot>, dev: int, ino: nat) {
    exists i :: 0 <= i < |t| && t[i].dev == dev && t[i].num == ino
  }

  /** An inode as the kernel knows it: in the table, or else on the disk. */
  ghost function NodeOf(t: seq<Slot>, disk: imap<(int, nat), Node>, dev: int, ino: nat): Node {
    if InTable(t, dev, ino) then
      var i :| 0 <= i < |t| && t[i].dev == dev && t[i].num == ino;
      t[i].node
    else if (dev, ino) in disk then disk[(dev, ino)] else Node(F_NONE, 0, false)
  }

  /** Every inode is known as before. */
  ghost predicate SameNodes(t: seq<Slot>, disk: imap<(int, nat), Node>,
                            u: seq<Slot>, disk': imap<(int, nat), Node>) {
    forall d, n: nat :: n != 0 ==> NodeOf(u, disk', d, n) == NodeOf(t, disk, d, n)
  }

  /** What the scan finds is the inode as the kernel knows it. */
  lemma NodeIs(t: seq<Slot>, disk: imap<(int, nat), Node>, dev: int, ino: nat, n: int, found: bool)
    requires Unique(t) && ino != 0 && (dev, ino) in disk
    requires found ==> 0 <= n < |t| && t[n].dev == dev && t[n].num == ino
    requires !found ==> forall i :: 0 <= i < |t| ==> !(t[i].dev == dev && t[i].num == ino)
    ensures InTable(t, dev, ino) <==> found
    ensures NodeOf(t, disk, dev, ino) == if found then t[n].node else disk[(dev, ino)]
  {
  }

  /** Slots keep their inodes, and none comes into use. */
  lemma SameNames(t: seq<Slot>, u: seq<Slot>, mounts: seq<Mount>, rootdev: int)
    requires SlotsOk(t, mounts, rootdev) && Unique(t) && |u| == |t|
    requires forall i :: 0 <= i < |t| ==>
      u[i].dev == t[i].dev && u[i].num == t[i].num && (t[i].refs == 0 ==> u[i].refs == 0)
    ensures SlotsOk(u, mounts, rootdev) && Unique(u)
  {
  }

  /** A slot out of use gets an inode that no slot has. */
  lemma NewName(t: seq<Slot>, n: nat, s: Slot, mounts: seq<Mount>, rootdev: int)
    requires SlotsOk(t, mounts, rootdev) && Unique(t) && n < |t| && t[n].refs == s.refs == 0
    requires forall i :: 0 <= i < |t| ==> !(t[i].dev == s.dev && t[i].num == s.num)
    ensures SlotsOk(t[n := s], mounts, rootdev) && Unique(t[n := s])
  {
  }

  /** A slot out of use can be given up at no loss. */
  lemma Reused(t: seq<Slot>, disk: imap<(int, nat), Node>, n: nat, s: Slot)
    requires Unique(t) && Written(t, disk) && n < |t| && t[n].refs == 0 && s.node == disk[(s.dev, s.num)]
    requires forall i :: 0 <= i < |t| ==> !(t[i].dev == s.dev && t[i].num == s.num)
    ensures SameNodes(t, disk, t[n := s], disk)
  {
    var u := t[n := s];
    forall d, m: nat | m != 0 ensures NodeOf(u, disk, d, m) == NodeOf(t, disk, d, m) {
      if i :| 0 <= i < |t| && t[i].dev == d && t[i].num == m {
        NodeIs(t, disk, d, m, i, true);
        if i != n {
          assert u[i] == t[i];
          NodeIs(u, disk, d, m, i, true);
        } else {
          NodeIs(u, disk, d, m, NULLINODE, false);
        }
      } else {
        NodeIs(t, disk, d, m, NULLINODE, false);
        if (d, m) == (s.dev, s.num) {
          NodeIs(u, disk, d, m, n, true);
        } else {
          NodeIs(u, disk, d, m, NULLINODE, false);
        }
      }
    }
  }

  /** The nodes of the slots are what counts. */
  lemma NodesStay(t: seq<Slot>, u: seq<Slot>, disk: imap<(int, nat), Node>)
    requires Unique(t) && |u| == |t| && (forall d, n: nat :: (d, n) in disk)
    requires forall i :: 0 <= i < |t| ==> u[i].dev == t[i].dev && u[i].num == t[i].num && u[i].node == t[i].node
    ensures SameNodes(t, disk, u, disk)
  {
    forall d, m: nat | m != 0 ensures NodeOf(u, disk, d, m) == NodeOf(t, disk, d, m) {
      if i :| 0 <= i < |t| && t[i].dev == d && t[i].num == m {
        NodeIs(t, disk, d, m, i, true);
        NodeIs(u, disk, d, m, i, true);
      } else {
        NodeIs(t, disk, d, m, NULLINODE, false);
        NodeIs(u, disk, d, m, NULLINODE, false);
      }
    }
  }

  /** Nothing is lost when a slot is written to the disk. */
  lemma WroteBack(t: seq<Slot>, disk: imap<(int, nat), Node>, i: nat, s: Slot, disk': imap<(int, nat), Node>)
    requires Unique(t) && i < |t| && s.dev == t[i].dev && s.num == t[i].num && s.node == t[i].node
    requires (forall d, n: nat :: (d, n) in disk) && (disk' == disk || disk' == disk[(s.dev, s.num) := s.node])
    ensures SameNodes(t, disk, t[i := s], disk')
  {
    NodesStay(t, t[i := s], disk);
    var u := t[i := s];
    forall d, m: nat | m != 0 ensures NodeOf(u, disk', d, m) == NodeOf(u, disk, d, m) {
      if !InTable(u, d, m) {
        assert u[i] == s && (d, m) != (s.dev, s.num);
      }
    }
  }

  /** A slot in use or coming into use gets one more reference. */
  lemma OneMore(t: seq<Slot>, n: nat, mounts: seq<Mount>, rootdev: int)
    requires SlotsOk(t, mounts, rootdev) && Unique(t) && n < |t|
    requires 0 <= t[n].dev < NDEVS && (t[n].dev == rootdev || mounts[t[n].dev].mntpt != NULLINODE) && t[n].num != 0
    ensures var u := t[n := t[n].(refs := t[n].refs + 1)]; SlotsOk(u, mounts, rootdev) && Unique(u)
  {
  }

  /** An inode by its device and number. */
  datatype Ino = Ino(dev: int, num: nat)

  datatype Spot = Nowhere | At(ino: Ino)

  function Where(t: seq<Slot>, i: int): Ino {
    if 0 <= i < |t| then Ino(t[i].dev, t[i].num) else Ino(-1, 0)
  }

  function SpotOf(t: seq<Slot>, i: int): Spot {
    if i == NULLINODE then Nowhere else At(Where(t, i))
  }

  /** Inodes that have come into use since t have links. */
  predicate Linked(t: seq<Slot>, u: seq<Slot>) {
    |t| == |u| && forall i :: 0 <= i < |t| && t[i].refs == 0 && u[i].refs > 0 ==> u[i].node.nlink != 0
  }

  /** What a lookup depends on: the inodes, in the table and on the disk, what is mounted
      where, and what the directories name. */
  datatype World = World(t: seq<Slot>, disk: imap<(int, nat), Node>, mounts: seq<Mount>, rootdev: int,
                         entries: (int, nat, string) -> Entry)

  /** The path without the slashes it begins with. */
  function SkipSlashes(name: string): (r: string)
    ensures |r| <= |name| && (r != "" ==> r[0] != '/')
  {
    if name != "" && name[0] == '/' then SkipSlashes(name[1..]) else name
  }

  /** The path behind its first component. */
  function SkipName(name: string): (r: string)
    ensures |r| <= |name| && (name != "" && name[0] != '/' ==> |r| < |name|)
  {
    if name != "" && name[0] != '/' then SkipName(name[1..]) else name
  }

  function First(name: string): string {
    name[..|name| - |SkipName(name)|]
  }

  /** The names that a path is made of. */
  function Components(name: string): (cs: seq<string>)
    ensures cs == [] <==> SkipSlashes(name) == ""
    decreases |name|
  {
    var rest := SkipSlashes(name);
    if rest == "" then [] else [First(rest)] + Components(SkipName(rest))
  }

  ghost predicate InUse(t: seq<Slot>, x: Ino) {
    exists i :: 0 <= i < |t| && t[i].refs > 0 && Where(t, i) == x
  }

  ghost predicate FreeSlots(t: seq<Slot>, two: bool) {
    exists i :: 0 <= i < |t| && t[i].refs == 0 && (two ==> exists j :: i < j < |t| && t[j].refs == 0)
  }

  /** A slot for an inode, or for one more beside that of the directory searched. */
  ghost predicate Room(t: seq<Slot>, dir: Ino, x: Ino) {
    x == dir || InUse(t, x) || FreeSlots(t, !InUse(t, dir))
  }

  /** What opening an inode gives, and the error number afterwards. */
  datatype Got = Got(at: Spot, err: int)

  ghost function Opened(w: World, dir: Ino, x: Ino, err: int): Got {
    var n := NodeOf(w.t, w.disk, x.dev, x.num);
    if !(0 <= x.dev < |w.mounts| && ROOTINODE <= x.num < (w.mounts[x.dev].isize - 2) * 8) then Got(Nowhere, err)
    else if !Room(w.t, dir, x) then Got(Nowhere, ENFILE)
    else if n.nlink != 0 && n.mode != F_NONE then Got(At(x), err)
    else Got(Nowhere, err)
  }

  /** The first device from j on that is mounted on an inode. */
  function MountOn(w: World, x: Ino, j: nat): (k: nat)
    requires j <= |w.mounts|
    ensures j <= k <= |w.mounts|
    decreases |w.mounts| - j
  {
    if j == |w.mounts| || (w.mounts[j].mounted && Where(w.t, w.mounts[j].mntpt) == x) then j else MountOn(w, x, j + 1)
  }

  /** A mount point stands for the root of what is mounted on it. */
  ghost function Cross(w: World, dir: Ino, got: Got): Got {
    if got.at == Nowhere then got else
    var j := MountOn(w, got.at.ino, 0);
    if j == |w.mounts| then got else Opened(w, dir, Ino(j, ROOTINODE), got.err)
  }

  /** The directory that is searched for a name: from the root of a mounted file system,
      for a name with a dot in second place, the one that it is mounted on. */
  function Above(w: World, dir: Ino, c: string): Ino {
    if dir.num == ROOTINODE && dir.dev != w.rootdev && |c| > 1 && c[1] == '.' && 0 <= dir.dev < |w.mounts|
    then Where(w.t, w.mounts[dir.dev].mntpt) else dir
  }

  /** What the entry of a directory leads to. */
  ghost function Entered(w: World, dir: Ino, c: string, err: int): Got {
    match w.entries(dir.dev, dir.num, c)
    case NotFound => Got(Nowhere, err)
    case Found(num) => Opened(w, dir, Ino(dir.dev, num), err)
  }

  /** How a walk ends: at the end of the path, with the directory searched last, or on the
      way, for an error. */
  datatype End = End(dir: Ino, got: Got) | Stop(err: int)

  /** The walk along the components of a path. */
  ghost function Follow(w: World, dir: Ino, got: Got, cs: seq<string>): End
    decreases |cs|
  {
    if cs == [] then End(dir, got)
    else if got.at == Nowhere then Stop(ENOENT)
    else
      var n := NodeOf(w.t, w.disk, got.at.ino.dev, got.at.ino.num);
      if n.mode != F_DIR then Stop(ENOTDIR)
      else if !n.exec then Stop(EPERM)
      else
        var d := Above(w, got.at.ino, cs[0]);
        Follow(w, d, Cross(w, d, Entered(w, d, cs[0], got.err)), cs[1..])
  }

  /** The walk that a path means, from an inode on. */
  ghost function Walk(w: World, start: Ino, err: int, name: string): End {
    Follow(w, start, Cross(w, start, Got(At(start), err)), Components(name))
  }

  /** A path of two parts leads to where its second part leads from where the first does. */
  lemma {:induction false} FollowBoth(w: World, dir: Ino, got: Got, cs: seq<string>, ds: seq<string>)
    ensures var e := Follow(w, dir, got, cs);
            Follow(w, dir, got, cs + ds) == if e.Stop? then e else Follow(w, e.dir, e.got, ds)
    decreases |cs|
  {
    if cs == [] {
      assert cs + ds == ds;
    } else {
      assert (cs + ds)[0] == cs[0] && (cs + ds)[1..] == cs[1..] + ds;
      if got.at.At? {
        var d := Above(w, got.at.ino, cs[0]);
        FollowBoth(w, d, Cross(w, d, Entered(w, d, cs[0], got.err)), cs[1..], ds);
      }
    }
  }

  /** The components of a path are those in front of a slash and those behind it. */
  lemma {:induction false} ComponentsJoin(a: string, b: string)
    ensures Components(a + "/" + b) == Components(a) + Components(b)
    decreases |a|
  {
    SkipOver(a, b);
    var rest := SkipSlashes(a);
    if rest != "" {
      NameOver(rest, b);
      ComponentsJoin(SkipName(rest), b);
    }
  }

  lemma {:induction false} SkipOver(a: string, b: string)
    ensures SkipSlashes(a + "/" + b) == if SkipSlashes(a) == "" then SkipSlashes(b) else SkipSlashes(a) + "/" + b
  {
    if a == "" {
      assert (a + "/" + b)[1..] == b;
    } else {
      assert (a + "/" + b)[1..] == a[1..] + "/" + b && (a + "/" + b)[0] == a[0];
      SkipOver(a[1..], b);
    }
  }

  lemma {:induction false} NameOver(a: string, b: string)
    ensures SkipName(a + "/" + b) == SkipName(a) + "/" + b && First(a + "/" + b) == First(a)
  {
    if a == "" {
      assert (a + "/" + b)[0] == '/';
    } else {
      assert (a + "/" + b)[1..] == a[1..] + "/" + b && (a + "/" + b)[0] == a[0];
      NameOver(a[1..], b);
    }
    assert (a + "/" + b)[..|a| - |SkipName(a)|] == a[..|a| - |SkipName(a)|];
  }

  /** A name without slashes is one component. */
  lemma {:induction false} OneComponent(c: string)
    requires c != "" && '/' !in c
    ensures Components(c) == [c]
  {
    NoSlash(c);
    assert First(c) == c;
  }

  lemma {:induction false} NoSlash(c: string)
    requires '/' !in c
    ensures SkipName(c) == "" && SkipSlashes(c) == c
  {
    if c != "" { NoSlash(c[1..]); }
  }

  /** Looking up `a/b` is looking up b from where a leads. */
  lemma WalkJoin(w: World, start: Ino, err: int, a: string, b: string)
    ensures var e := Walk(w, start, err, a);
            Walk(w, start, err, a + "/" + b) == if e.Stop? then e else Follow(w, e.dir, e.got, Components(b))
  {
    ComponentsJoin(a, b);
    FollowBoth(w, start, Cross(w, start, Got(At(start), err)), Components(a), Components(b));
  }

  /** The directory that a name should be searched in. */
  function Meant(w: World, dir: Ino, c: string): Ino {
    if dir.num == ROOTINODE && dir.dev != w.rootdev && 0 <= dir.dev < |w.mounts| && c == ".."
    then Where(w.t, w.mounts[dir.dev].mntpt) else dir
  }

  /** In the root of a mounted file system, exactly the names that have a dot in second
      place and are not `..` are looked for in the wrong directory. */
  lemma SearchedAsMeant(w: World, dir: Ino, c: string)
    requires 0 <= dir.dev < |w.mounts| && Where(w.t, w.mounts[dir.dev].mntpt) != dir
    ensures Above(w, dir, c) == Meant(w, dir, c) <==>
              !(dir.num == ROOTINODE && dir.dev != w.rootdev && |c| > 1 && c[1] == '.' && c != "..")
  {
  }

  class Lookup {
    var itab: seq<Slot>
    var nexti: nat
    var disk: imap<(int, nat), Node>
    var error: int
    var mounts: seq<Mount>
    var root: nat
    var rootdev: int
    var cwd: nat
    const entries: (int, nat, string) -> Entry   // what `srch_dir` finds in a directory

    /** The root, the working directory and the mount points are held by others. */
    ghost predicate Anchored(t: seq<Slot>)
      reads this`mounts, this`root, this`cwd
    {
      && |t| == ITABSIZE && |mounts| == NDEVS
      && root < ITABSIZE && cwd < ITABSIZE && t[root].refs > 0 && t[cwd].refs > 0
      && (forall j :: 0 <= j < NDEVS && mounts[j].mntpt != NULLINODE ==>
            0 <= mounts[j].mntpt < ITABSIZE && t[mounts[j].mntpt].refs > 0)
    }

    ghost predicate Valid()
      reads this`itab, this`nexti, this`disk, this`mounts, this`root, this`rootdev, this`cwd
    {
      && SlotsOk(itab, mounts, rootdev) && Unique(itab) && nexti < ITABSIZE && Anchored(itab)
      && Written(itab, disk)
    }

    constructor (itab: seq<Slot>, disk: imap<(int, nat), Node>, mounts: seq<Mount>, root: nat, rootdev: int, cwd: nat,
                 entries: (int, nat, string) -> Entry)
      requires SlotsOk(itab, mounts, rootdev) && Unique(itab) && Written(itab, disk)
      requires |mounts| == NDEVS && root < ITABSIZE && cwd < ITABSIZE && itab[root].refs > 0 && itab[cwd].refs > 0
      requires forall j :: 0 <= j < NDEVS && mounts[j].mntpt != NULLINODE ==>
                 0 <= mounts[j].mntpt < ITABSIZE && itab[mounts[j].mntpt].refs > 0
      ensures Valid() && this.itab == itab && this.entries == entries
    {
      this.itab, this.disk, this.mounts := itab, disk, mounts;
      this.root, this.rootdev, this.cwd, this.entries := root, rootdev, cwd, entries;
      nexti, error := 0, 0;
    }

    /** The scan of `i_open`: from the slot behind nexti once around the table. It ends at
        the slot of the inode, or else gives the last slot it saw without references. */
    method Scan(dev: int, ino: nat) returns (found: bool, n: int)
      requires SlotsOk(itab, mounts, rootdev) && nexti < ITABSIZE
      modifies this`nexti
      ensures nexti < ITABSIZE && (n == NULLINODE || 0 <= n < ITABSIZE)
      ensures found ==> n != NULLINODE && itab[n].dev == dev && itab[n].num == ino
      ensures !found ==> (forall i :: 0 <= i < ITABSIZE ==> !(itab[i].dev == dev && itab[i].num == ino))
      ensures !found && n != NULLINODE ==> itab[n].refs == 0
      ensures !found && n == NULLINODE ==> forall i :: 0 <= i < ITABSIZE ==> itab[i].refs > 0
      ensures found ==> n == Around(nexti, 1)
      ensures !found ==> nexti == Around(old(nexti), ITABSIZE - 1)
    {
      n := NULLINODE;
      var j := nexti;
      var k := 0;
      ghost var start := j;
      while k < ITABSIZE
        invariant 0 <= k <= ITABSIZE && start < ITABSIZE && nexti < ITABSIZE && j == Around(start, k)
        invariant k > 0 ==> nexti == Around(start, k - 1)
        invariant n == NULLINODE || (0 <= n < ITABSIZE && itab[n].refs == 0)
        invariant forall i :: 1 <= i <= k ==> !(itab[Around(start, i)].dev == dev && itab[Around(start, i)].num == ino)
        invariant n == NULLINODE ==> forall i :: 1 <= i <= k ==> itab[Around(start, i)].refs > 0
      {
        nexti := j;
        j := if j + 1 >= ITABSIZE then 0 else j + 1;
        if itab[j].refs == 0 {
          n := j;
        }
        if itab[j].dev == dev && itab[j].num == ino {
          return true, j;
        }
        k := k + 1;
      }
      found := false;
      forall i | 0 <= i < ITABSIZE
        ensures !(itab[i].dev == dev && itab[i].num == ino) && (n == NULLINODE ==> itab[i].refs > 0)
      {
        assert i == Around(start, if i > start then i - start else i - start + ITABSIZE);
      }
    }

    /** Slot k places behind slot s. */
    function Around(s: nat, k: nat): nat
      requires s < ITABSIZE && k <= ITABSIZE
    {
      if s + k >= ITABSIZE then s + k - ITABSIZE else s + k
    }

    lemma Sizes()
      requires SlotsOk(itab, mounts, rootdev)
      ensures |itab| == ITABSIZE && |mounts| == NDEVS
    {
    }

    /** An inode number within the device's range, with a slot for it. */
    ghost predicate CanOpen(dev: int, ino: nat)
      requires 0 <= dev < |mounts|
      reads this`itab, this`mounts
    {
      ROOTINODE <= ino < (mounts[dev].isize - 2) * 8 && CanSeat(dev, ino)
    }

    ghost predicate CanSeat(dev: int, ino: nat)
      reads this`itab
    {
      InTable(itab, dev, ino) || FreeSlots(itab, false)
    }

    /** The first half of `i_open`: a slot with the inode in it, if there is one for it. */
    method Seat(dev: int, ino: nat) returns (n: int)
      requires SlotsOk(itab, mounts, rootdev) && Unique(itab) && nexti < ITABSIZE && ino != 0
      requires Written(itab, disk)
      modifies this`itab, this`nexti
      ensures SlotsOk(itab, mounts, rootdev) && Unique(itab) && nexti < ITABSIZE && Written(itab, disk)
      ensures n == NULLINODE || 0 <= n < ITABSIZE
      ensures n != NULLINODE <==> old(CanSeat(dev, ino))
      ensures n != NULLINODE ==> Where(itab, n) == Ino(dev, ino) && itab[n].node == old(NodeOf(itab, disk, dev, ino))
      ensures SameNodes(old(itab), disk, itab, disk)
      ensures |itab| == |old(itab)|
      ensures forall i :: 0 <= i < |itab| ==>
        itab[i].refs == old(itab)[i].refs && (itab[i].refs > 0 ==> itab[i] == old(itab)[i])
    {
      hide Unique, SlotsOk;
      Sizes();
      var found;
      found, n := Scan(dev, ino);
      NodeIs(itab, disk, dev, ino, n, found);
      if !found && n != NULLINODE {
        var s := Slot(dev, ino, itab[n].refs, disk[(dev, ino)], itab[n].dirty);
        NewName(itab, n, s, mounts, rootdev);
        Reused(itab, disk, n, s);
        itab := itab[n := s];
      }
    }

    /** `i_open`: one more reference on the slot of the inode, or nothing at all. For
        inode number 0 a new inode is wanted, which `i_alloc` chose, if there is one. It
        gives nothing exactly if there is no number, a number out of range, no slot, or
        an inode that is in use though it should be new, or not though it should. */
    method IOpen(dev: int, ino0: nat, chosen: nat) returns (r: int)
      requires SlotsOk(itab, mounts, rootdev) && Unique(itab) && nexti < ITABSIZE && 0 <= dev < NDEVS
      requires dev == rootdev || mounts[dev].mntpt != NULLINODE
      requires Written(itab, disk)
      modifies this`itab, this`nexti, this`error
      ensures SlotsOk(itab, mounts, rootdev) && Unique(itab) && nexti < ITABSIZE && Written(itab, disk)
      ensures r == NULLINODE || 0 <= r < ITABSIZE
      ensures Adds(old(itab), itab, r, NULLINODE) && SameInodes(old(itab), itab)
      ensures r != NULLINODE ==> itab[r].dev == dev && itab[r].num == if ino0 == 0 then chosen else ino0
      ensures var ino := if ino0 == 0 then chosen else ino0;
              r != NULLINODE <==>
              && old(CanOpen(dev, ino))
              && var node := old(NodeOf(itab, disk, dev, ino));
                 if ino0 == 0 then node.nlink == 0 && node.mode == F_NONE else node.nlink != 0 && node.mode != F_NONE
      ensures SameNodes(old(itab), disk, itab, disk)
      ensures forall i :: 0 <= i < ITABSIZE && old(itab)[i].refs > 0 ==>
                itab[i] == old(itab)[i].(refs := itab[i].refs)
      ensures r != NULLINODE ==> ino0 == 0 || itab[r].node.nlink != 0
      ensures var ino := if ino0 == 0 then chosen else ino0;
              error == if ino == 0 then ENOSPC
                       else if ino < (mounts[dev].isize - 2) * 8 && !old(CanOpen(dev, ino)) then ENFILE
                       else old(error)
    {
      hide Unique, SlotsOk, NodeOf, CanSeat;
      Sizes();
      var ino := if ino0 == 0 then chosen else ino0;
      if ino == 0 {
        error := ENOSPC;
        return NULLINODE;
      }
      if ino < ROOTINODE || ino >= (mounts[dev].isize - 2) * 8 {
        return NULLINODE;
      }
      var n := Seat(dev, ino);
      if n == NULLINODE {
        error := ENFILE;
        return NULLINODE;
      }
      var node := itab[n].node;
      if ino0 == 0 {
        if node.nlink != 0 || node.mode != F_NONE {
          return NULLINODE;
        }
      } else {
        if !(node.nlink != 0 && node.mode != F_NONE) {
          return NULLINODE;
        }
      }
      OneMore(itab, n, mounts, rootdev);
      NodesStay(itab, itab[n := itab[n].(refs := itab[n].refs + 1)], disk);
      itab := itab[n := itab[n].(refs := itab[n].refs + 1)];
      r := n;
    }

    /** `i_deref`: one reference less. An inode without references is written back if it
        is dirty or loses its blocks, and freed with that if it has no links. */
    method IDeref(i: nat)
      requires SlotsOk(itab, mounts, rootdev) && Unique(itab) && i < ITABSIZE && itab[i].refs > 0 && Written(itab, disk)
      modifies this`itab, this`disk
      ensures SlotsOk(itab, mounts, rootdev) && Unique(itab) && Written(itab, disk)
      ensures forall k :: 0 <= k < ITABSIZE ==>
        && itab[k].refs == old(itab)[k].refs - Held(k, i)
        && itab[k].dev == old(itab)[k].dev && itab[k].num == old(itab)[k].num
      ensures forall k :: 0 <= k < ITABSIZE && k != i ==> itab[k] == old(itab)[k]
      ensures itab[i].refs > 0 || !(old(itab)[i].dirty || LosesBlocks(old(itab)[i].node)) ==>
                itab[i] == old(itab)[i].(refs := itab[i].refs) && disk == old(disk)
      ensures itab[i].refs == 0 && (old(itab)[i].dirty || LosesBlocks(old(itab)[i].node)) ==>
                && itab[i].node == Freed(old(itab)[i].node)
                && disk == old(disk)[(itab[i].dev, itab[i].num) := itab[i].node] && !itab[i].dirty
      ensures itab[i].refs > 0 || itab[i].node.nlink != 0 ==> SameNodes(old(itab), old(disk), itab, disk)
    {
      hide Unique, SlotsOk, SameNodes;
      Sizes();
      if itab[i].refs == 0 {
        assert false;
      }
      var s := itab[i].(refs := itab[i].refs - 1);
      if s.refs == 0 && s.node.nlink == 0 {
        if LosesBlocks(s.node) {
          s := s.(dirty := true);              // f_trunc
        }
      }
      if s.refs == 0 && s.dirty {
        s := s.(node := Freed(s.node));
        disk := disk[(s.dev, s.num) := s.node];
        s := s.(dirty := false);
      }
      SameNames(itab, itab[i := s], mounts, rootdev);
      if s.node == itab[i].node {
        WroteBack(itab, old(disk), i, s, disk);
      }
      itab := itab[i := s];
    }

    /** `i_ref`; false is the panic for too many references. */
    method IRef(i: nat) returns (ok: bool)
      requires i < ITABSIZE == |itab| && itab[i].refs > 0
      modifies this`itab
      ensures itab == old(itab)[i := old(itab)[i].(refs := old(itab)[i].refs + 1)]
      ensures ok <==> itab[i].refs != 2 * ITABSIZE
    {
      itab := itab[i := itab[i].(refs := itab[i].refs + 1)];
      ok := itab[i].refs != 2 * ITABSIZE;
    }

    /** What a lookup that begins now depends on. */
    ghost function Now(): World
      reads this`itab, this`disk, this`mounts, this`rootdev
    {
      World(itab, disk, mounts, rootdev, entries)
    }

    /** References held on slots x and y, on top of those that were there in w; all inodes
        are as they were in w. */
    ghost predicate Holding(w: World, x: int, y: int)
      reads this`itab, this`nexti, this`disk, this`mounts, this`root, this`rootdev, this`cwd
    {
      && Valid() && Adds(w.t, itab, x, y) && SameInodes(w.t, itab)
      && -1 <= x < ITABSIZE && -1 <= y < ITABSIZE && Anchored(w.t)
      && SlotsOk(w.t, w.mounts, w.rootdev)
      && w == Now().(t := w.t, disk := w.disk)
      && SameNodes(w.t, w.disk, itab, disk) && Linked(w.t, itab)
    }

    /** Dropping one of the references held. An inode that the lookup opened has links, so
        it is not freed with that. */
    method Drop(ghost w: World, x: nat, ghost y: int)
      requires x < ITABSIZE && Holding(w, x, y)
      modifies this`itab, this`disk
      ensures Holding(w, y, NULLINODE)
      ensures |itab| == |old(itab)| && forall k {:trigger Where(itab, k)} :: Where(itab, k) == old(Where(itab, k))
    {
      hide Unique, SlotsOk, NodeOf, SameNodes, Written;
      Sizes();
      ghost var was, wasDisk := itab, disk;
      IDeref(x);
      Sizes();
      assert itab[x].refs == w.t[x].refs + Held(x, y);
      assert itab[x].refs == 0 ==> was[x].node.nlink != 0;
      NodesTwice(w.t, w.disk, was, wasDisk, itab, disk);
    }

    lemma NodesTwice(t: seq<Slot>, d0: imap<(int, nat), Node>, u: seq<Slot>, d1: imap<(int, nat), Node>,
                     v: seq<Slot>, d2: imap<(int, nat), Node>)
      requires SameNodes(t, d0, u, d1) && SameNodes(u, d1, v, d2)
      ensures SameNodes(t, d0, v, d2)
    {
      hide NodeOf;
    }

    /** The two references that a lookup begins with; false is the panic. */
    method Begin(wd: nat) returns (ok: bool)
      requires Valid() && wd < ITABSIZE && itab[wd].refs > 0
      modifies this`itab
      ensures |itab| == |old(itab)| && forall k {:trigger Where(itab, k)} :: Where(itab, k) == old(Where(itab, k))
      ensures ok ==> Holding(old(Now()), wd, wd)
      ensures ok <==> old(itab)[wd].refs !in {2 * ITABSIZE - 2, 2 * ITABSIZE - 1}
    {
      hide Unique, SlotsOk, Anchored, SameInodes, NodeOf;
      Facts(itab);
      ok := IRef(wd);
      if ok {
        ok := IRef(wd);
      }
      MoreRefs(old(itab), itab);
    }

    /** More references on slots in use leave everything else as it is. */
    lemma MoreRefs(t: seq<Slot>, u: seq<Slot>)
      requires |t| == |u|
      requires forall i :: 0 <= i < |t| ==> u[i].refs >= t[i].refs
      requires forall i :: 0 <= i < |t| ==> u[i] == t[i].(refs := u[i].refs) && (t[i].refs == 0 ==> u[i].refs == 0)
      ensures Unique(t) ==> Unique(u)
      ensures SlotsOk(t, mounts, rootdev) ==> SlotsOk(u, mounts, rootdev)
      ensures Anchored(t) ==> Anchored(u)
      ensures SameInodes(t, u) && Linked(t, u)
      ensures Written(t, disk) ==> Written(u, disk)
      ensures Unique(t) && Written(t, disk) ==> SameNodes(t, disk, u, disk)
    {
      hide NodeOf;
      if Unique(t) && Written(t, disk) {
        NodesStay(t, u, disk);
      }
    }

    lemma Facts(t: seq<Slot>)
      requires Valid()
      ensures root < ITABSIZE && cwd < ITABSIZE && |itab| == ITABSIZE && itab[root].refs > 0 && itab[cwd].refs > 0
      ensures Adds(itab, itab, NULLINODE, NULLINODE) && SameInodes(itab, itab)
    {
    }

    lemma HoldingFacts(w: World, x: int, y: int)
      requires Holding(w, x, y)
      ensures Valid() && SameInodes(w.t, itab) && Adds(w.t, itab, x, y) && SameNodes(w.t, w.disk, itab, disk)
      ensures Adds(w.t, itab, y, x) && -1 <= y < ITABSIZE == |itab|
      ensures Holding(w, y, x) && |mounts| == NDEVS
      ensures w.mounts == mounts && w.rootdev == rootdev && w.entries == entries
      ensures x != NULLINODE ==> 0 <= x < ITABSIZE && itab[x].refs > 0 && 0 <= itab[x].dev < NDEVS && itab[x].num != 0
                                 && (itab[x].dev == rootdev || mounts[itab[x].dev].mntpt != NULLINODE)
    {
    }

    /** An inode held is the one that the walk sees. */
    lemma HeldNode(w: World, x: nat, y: int)
      requires Holding(w, x, y) && x < ITABSIZE
      ensures |itab| == ITABSIZE && itab[x].node == NodeOf(w.t, w.disk, itab[x].dev, itab[x].num)
    {
      HoldingFacts(w, x, y);
      NodeIs(itab, disk, itab[x].dev, itab[x].num, x, true);
    }

    predicate MountedAt(j: int, ino: int)
      requires 0 <= j < |mounts|
      reads this`mounts
    {
      mounts[j].mounted && mounts[j].mntpt == ino
    }

    /** The search of `srch_mt`: the first file system mounted on an inode, or NDEVS. */
    method FindMount(ino: nat) returns (j: nat)
      requires |mounts| == NDEVS
      ensures j <= NDEVS && (j < NDEVS ==> MountedAt(j, ino)) && forall i :: 0 <= i < j ==> !MountedAt(i, ino)
    {
      j := 0;
      while j < NDEVS && !(mounts[j].mounted && mounts[j].mntpt == ino)
        invariant 0 <= j <= NDEVS && forall i :: 0 <= i < j ==> !MountedAt(i, ino)
      {
        j := j + 1;
      }
    }

    /** Slots of mount points are compared, which is to compare their inodes. */
    lemma SamePoint(w: World, wd: int, ino: nat, j: nat)
      requires ino < ITABSIZE && Holding(w, ino, wd) && |mounts| == NDEVS && j < NDEVS
      ensures |w.mounts| == NDEVS
      ensures mounts[j].mounted ==> (Where(w.t, w.mounts[j].mntpt) == Where(itab, ino) <==> mounts[j].mntpt == ino)
    {
      HoldingFacts(w, ino, wd);
      var p := mounts[j].mntpt;
      if p != NULLINODE {
        assert 0 <= p < ITABSIZE && w.t[p].refs > 0 && Where(w.t, p) == Where(itab, p);
      }
    }

    lemma FirstMount(w: World, wd: int, ino: nat, i: nat, j: nat)
      requires ino < ITABSIZE && Holding(w, ino, wd) && |mounts| == NDEVS && i <= j <= NDEVS
      requires (j < NDEVS ==> MountedAt(j, ino)) && forall k :: i <= k < j ==> !MountedAt(k, ino)
      ensures |w.mounts| == NDEVS && MountOn(w, Where(itab, ino), i) == j
      decreases j - i
    {
      hide Holding, Where;
      HoldingFacts(w, ino, wd);
      if i < NDEVS { SamePoint(w, wd, ino, i); }
      if i < j {
        assert !MountedAt(i, ino);
        FirstMount(w, wd, ino, i + 1, j);
      }
    }

    /** `srch_mt`: from a mount point on to the root of what is mounted there. */
    method SrchMt(ghost w: World, ghost wd: nat, ino: nat) returns (r: int)
      requires wd < ITABSIZE && ino < ITABSIZE && Holding(w, wd, ino)
      modifies this`itab, this`disk, this`nexti, this`error
      ensures Holding(w, wd, r) && -1 <= r < ITABSIZE && Where(itab, wd) == old(Where(itab, wd))
      ensures Got(SpotOf(itab, r), error) ==
                Cross(w, old(Where(itab, wd)), Got(At(old(Where(itab, ino))), old(error)))
    {
      hide Holding, Valid, Opened;
      HoldingFacts(w, wd, ino);
      var j := FindMount(ino);
      FirstMount(w, wd, ino, 0, j);
      if j == NDEVS {
        return ino;
      }
      Drop(w, ino, wd);
      HoldingFacts(w, wd, NULLINODE);
      r := Open(w, wd, j, ROOTINODE);
      HoldingFacts(w, wd, r);
    }

    /** Whether there is a slot does not depend on how far a lookup is. */
    lemma RoomIs(w: World, x: nat, dev: int, num: nat)
      requires x < ITABSIZE && Holding(w, x, NULLINODE)
      ensures Room(w.t, Where(itab, x), Ino(dev, num)) <==> CanSeat(dev, num)
    {
      HoldingFacts(w, x, NULLINODE);
      UsedDir(w, x);
      hide Holding, Room, InUse, FreeSlots, InTable, NodeOf;
      RoomFor(w.t, itab, x, Ino(dev, num));
    }

    lemma RoomFor(t: seq<Slot>, u: seq<Slot>, x: nat, y: Ino)
      requires x < |t| == |u| && Adds(t, u, x, NULLINODE) && SameInodes(t, u)
      requires InUse(t, Where(u, x)) <==> t[x].refs > 0
      ensures Room(t, Where(u, x), y) <==> InTable(u, y.dev, y.num) || FreeSlots(u, false)
    {
      if i :| 0 <= i < |u| && u[i].dev == y.dev && u[i].num == y.num {
        assert Where(u, i) == y;
        if i != x && u[i].refs > 0 {
          assert t[i].refs > 0 && Where(t, i) == y;
        }
      }
      if InUse(t, y) {
        var i :| 0 <= i < |t| && t[i].refs > 0 && Where(t, i) == y;
        assert u[i].dev == y.dev && u[i].num == y.num;
      }
    }

    /** The directory held was in use before exactly if its slot was. */
    lemma UsedDir(w: World, x: nat)
      requires x < ITABSIZE && Holding(w, x, NULLINODE)
      ensures |w.t| == ITABSIZE && (InUse(w.t, Where(itab, x)) <==> w.t[x].refs > 0)
    {
      HoldingFacts(w, x, NULLINODE);
      if w.t[x].refs > 0 {
        assert Where(w.t, x) == Where(itab, x);
      } else if i :| 0 <= i < |w.t| && w.t[i].refs > 0 && Where(w.t, i) == Where(itab, x) {
        assert false;
      }
    }

    /** Opening one more inode. */
    method Open(ghost w: World, ghost x: nat, dev: int, num: nat) returns (r: int)
      requires x < ITABSIZE && Holding(w, x, NULLINODE) && 0 <= dev < NDEVS
      requires (dev == rootdev || mounts[dev].mntpt != NULLINODE) && num != 0
      modifies this`itab, this`nexti, this`error
      ensures Holding(w, x, r) && Where(itab, x) == old(Where(itab, x))
      ensures Got(SpotOf(itab, r), error) == Opened(w, old(Where(itab, x)), Ino(dev, num), old(error))
    {
      hide NodeOf, Unique, SlotsOk, SameNodes, SameInodes, Written, Room, CanSeat;
      HoldingFacts(w, x, NULLINODE);
      RoomIs(w, x, dev, num);
      ghost var was := itab;
      r := IOpen(dev, num, 0);
      NodesTwice(w.t, w.disk, was, disk, itab, disk);
      StillSame(w.t, was, itab);
    }

    /** One more reference on a slot in use. */
    method TakeRef(ghost w: World, ghost x: nat, temp: nat)
      requires Holding(w, x, NULLINODE) && temp < ITABSIZE && itab[temp].refs > 0
      modifies this`itab
      ensures Holding(w, x, temp)
      ensures |itab| == |old(itab)| && forall k {:trigger Where(itab, k)} :: Where(itab, k) == old(Where(itab, k))
    {
      hide Unique, SlotsOk, SameInodes, Anchored, NodeOf;
      HoldingFacts(w, x, NULLINODE);
      ghost var was := itab;
      itab := itab[temp := itab[temp].(refs := itab[temp].refs + 1)];
      MoreRefs(was, itab);
      StillSame(w.t, was, itab);
    }

    lemma StillSame(t: seq<Slot>, u: seq<Slot>, v: seq<Slot>)
      requires SameInodes(t, u) && SameInodes(u, v) && |t| == |u|
      requires forall i :: 0 <= i < |t| && t[i].refs > 0 ==> u[i].refs > 0
      ensures SameInodes(t, v)
    {
    }

    /** Mount points are in use. */
    lemma Mounts(w: World, x: nat)
      requires Holding(w, x, NULLINODE)
      ensures forall j :: 0 <= j < NDEVS && mounts[j].mntpt != NULLINODE ==>
        && 0 <= mounts[j].mntpt < ITABSIZE && itab[mounts[j].mntpt].refs > 0
        && Where(w.t, mounts[j].mntpt) == Where(itab, mounts[j].mntpt)
    {
    }

    /** Going up from the root of a mounted file system, for a name with a dot in second
        place, starts at the mount point. */
    method GoUp(ghost w: World, wd0: nat, name: string) returns (wd: nat)
      requires wd0 < ITABSIZE && Holding(w, wd0, NULLINODE) && name != "" && name[0] != '/'
      modifies this`itab, this`disk
      ensures wd < ITABSIZE && Holding(w, wd, NULLINODE)
      ensures Where(itab, wd) == Above(w, old(Where(itab, wd0)), First(name))
    {
      hide Holding, Valid, First;
      wd := wd0;
      HoldingFacts(w, wd, NULLINODE);
      Mounts(w, wd);
      SecondOfFirst(name);
      if itab[wd].num == ROOTINODE && itab[wd].dev != rootdev && |name| > 1 && name[1] == '.' {
        var temp := mounts[itab[wd].dev].mntpt;
        TakeRef(w, wd, temp);
        Drop(w, wd, temp);
        wd := temp;
      }
    }

    /** How one round of the loop of `n_open` ends. */
    method Component(ghost w: World, wd0: nat, ninode0: nat, name: string) returns (ok: bool, wd: nat, ninode: int)
      requires wd0 < ITABSIZE && ninode0 < ITABSIZE && Holding(w, wd0, ninode0) && name != "" && name[0] != '/'
      requires forall d, n, c :: entries(d, n, c) != Found(0)
      modifies this`itab, this`disk, this`nexti, this`error
      ensures wd < ITABSIZE && Holding(w, wd, ninode) && -1 <= ninode < ITABSIZE
      ensures var x := old(Where(itab, ninode0)); var n := NodeOf(w.t, w.disk, x.dev, x.num);
              if !ok then
                && ninode == NULLINODE && (n.mode != F_DIR || !n.exec)
                && error == if n.mode != F_DIR then ENOTDIR else EPERM
              else
                && n.mode == F_DIR && n.exec && Where(itab, wd) == Above(w, x, First(name))
                && Got(SpotOf(itab, ninode), error) == Entered(w, Where(itab, wd), First(name), old(error))
    {
      hide Holding, Valid, Opened, Above, NodeOf;
      HoldingFacts(w, wd0, ninode0);
      Drop(w, wd0, ninode0);
      wd, ninode := ninode0, NULLINODE;
      HoldingFacts(w, wd, NULLINODE);
      HeldNode(w, wd, NULLINODE);
      assert Where(itab, wd) == old(Where(itab, ninode0));
      if itab[wd].node.mode != F_DIR {
        error := ENOTDIR;
        return false, wd, NULLINODE;
      }
      if !itab[wd].node.exec {
        error := EPERM;
        return false, wd, NULLINODE;
      }
      wd := GoUp(w, wd, name);
      HoldingFacts(w, wd, NULLINODE);
      var e := entries(itab[wd].dev, itab[wd].num, First(name));
      if e.Found? {
        ninode := Open(w, wd, itab[wd].dev, e.num);
        HoldingFacts(w, wd, ninode);
      }
      ok := true;
    }
  }

  /** The character behind the first of a path is in its first component, unless it is a
      slash. */
  lemma SecondOfFirst(name: string)
    requires name != "" && name[0] != '/'
    ensures (|First(name)| > 1 && First(name)[1] == '.') <==> (|name| > 1 && name[1] == '.')
  {
    SkipsTail(name);
    if |name| > 1 { SkipsTail(name[1..]); }
  }

  lemma {:induction false} SkipsTail(name: string)
    ensures |SkipName(name)| <= |name| && SkipName(name) == name[|name| - |SkipName(name)|..]
  {
    if name != "" && name[0] != '/' { SkipsTail(name[1..]); }
  }

  datatype Path = Unreadable | Path(name: string)

  /** What `n_open` leaves in *parent. */
  datatype Parent = NotWanted | Untouched | Is(slot: int)

  /** The slot that a lookup starts from. */
  function StartOf(k: Lookup, name: string): nat
    reads k`root, k`cwd
  {
    if name != "" && name[0] == '/' then k.root else k.cwd
  }

  /** What `n_open` reports for the way that a walk ends. */
  ghost predicate Reports(e: End, wanted: bool, t: seq<Slot>, r: int, parent: Parent, error: int) {
    match e
    case Stop(err) => r == NULLINODE && parent == (if wanted then Is(NULLINODE) else NotWanted) && error == err
    case End(dir, got) =>
      && SpotOf(t, r) == got.at
      && (if wanted then parent.Is? && SpotOf(t, parent.slot) == At(dir) else parent == NotWanted)
      && error == if got.at == Nowhere && !wanted then ENOENT else got.err
  }

  /** `n_open`: the result is the inode where the walk along the path ends, and *parent
      the directory before it; the lookup has added one reference to each, and none
      elsewhere, and every inode is as it was. A path that cannot be read leaves *parent
      as it was. Only too many references on the inode it starts from stop it. */
  method NOpen(k: Lookup, path: Path, wanted: bool) returns (alive: bool, r: int, parent: Parent)
    requires k.Valid() && forall d, n, c :: k.entries(d, n, c) != Found(0)
    modifies k`itab, k`nexti, k`disk, k`error
    ensures alive <==> (path.Path? ==> old(k.itab[StartOf(k, path.name)]).refs !in {2 * ITABSIZE - 2, 2 * ITABSIZE - 1})
    ensures alive ==> k.Valid() && SameInodes(old(k.itab), k.itab) && -1 <= r < ITABSIZE
    ensures alive ==> SameNodes(old(k.itab), old(k.disk), k.itab, k.disk)
    ensures alive ==> Adds(old(k.itab), k.itab, r, if parent.Is? then parent.slot else NULLINODE)
    ensures alive && path.Path? ==>
              Reports(old(Walk(k.Now(), Where(k.itab, StartOf(k, path.name)), k.error, path.name)), wanted,
                      k.itab, r, parent, k.error)
    ensures path == Unreadable ==> r == NULLINODE && parent == (if wanted then Untouched else NotWanted)
                                   && k.Now() == old(k.Now()) && k.error == old(k.error)
  {
    hide k.Holding, k.Valid, k.Anchored, Adds, SameInodes, SameNodes, Unique, SlotsOk, Written, SkipSlashes, SkipName,
         First;
    hide Cross, Entered, Above, NodeOf, Follow, Components;
    alive, r := true, NULLINODE;
    k.Facts(k.itab);
    parent := if wanted then Untouched else NotWanted;
    if path == Unreadable {
      SelfNodes(k.itab, k.disk);
      return;
    }
    var name := path.name;
    ghost var w := k.Now();
    ghost var goal := Walk(w, Where(k.itab, StartOf(k, name)), k.error, name);
    var wd := StartOf(k, name);
    alive := k.Begin(wd);
    if !alive {
      return;
    }
    var ninode: int := wd;
    while true
      invariant 0 <= wd < ITABSIZE && -1 <= ninode < ITABSIZE && k.Holding(w, wd, ninode)
      invariant goal == Follow(w, Where(k.itab, wd),
                               Cross(w, Where(k.itab, wd), Got(SpotOf(k.itab, ninode), k.error)), Components(name))
      decreases |name|
    {
      k.HoldingFacts(w, wd, ninode);
      CrossNowhere(w, Where(k.itab, wd), k.error);
      if ninode != NULLINODE {
        ninode := k.SrchMt(w, wd, ninode);
      }
      FollowOne(w, Where(k.itab, wd), Got(SpotOf(k.itab, ninode), k.error), name);
      name := SkipSlashes(name);
      if name == "" {
        break;
      }
      if ninode == NULLINODE {
        k.error := ENOENT;
        NoDir(k, w, wd);
        return true, NULLINODE, if wanted then Is(NULLINODE) else NotWanted;
      }
      var ok;
      ok, wd, ninode := k.Component(w, wd, ninode, name);
      if !ok {
        NoDir(k, w, wd);
        return true, NULLINODE, if wanted then Is(NULLINODE) else NotWanted;
      }
      name := SkipName(name);
    }
    r := ninode;
    parent := Leave(k, w, wd, ninode, wanted);
  }

  lemma SelfNodes(t: seq<Slot>, disk: imap<(int, nat), Node>)
    ensures SameNodes(t, disk, t, disk)
  {
  }

  lemma CrossNowhere(w: World, dir: Ino, err: int)
    ensures Cross(w, dir, Got(Nowhere, err)) == Got(Nowhere, err)
  {
  }

  /** One step of the walk. */
  lemma FollowOne(w: World, dir: Ino, got: Got, name: string)
    ensures var rest := SkipSlashes(name);
            && (rest == "" || rest[0] != '/')
            && Follow(w, dir, got, Components(name)) ==
                 if rest == "" then End(dir, got)
                 else if got.at == Nowhere then Stop(ENOENT)
                 else
                   var n := NodeOf(w.t, w.disk, got.at.ino.dev, got.at.ino.num);
                   if n.mode != F_DIR then Stop(ENOTDIR)
                   else if !n.exec then Stop(EPERM)
                   else
                     var d := Above(w, got.at.ino, First(rest));
                     Follow(w, d, Cross(w, d, Entered(w, d, First(rest), got.err)), Components(SkipName(rest)))
  {
    hide NodeOf, Above, Cross, Entered;
    var cs := Components(name);
    if cs != [] {
      assert cs[1..] == Components(SkipName(SkipSlashes(name)));
    }
  }

  method NoDir(k: Lookup, ghost w: World, wd: nat)
    requires wd < ITABSIZE && k.Holding(w, wd, NULLINODE)
    modifies k`itab, k`disk
    ensures k.Valid() && SameInodes(w.t, k.itab) && SameNodes(w.t, w.disk, k.itab, k.disk)
    ensures Adds(w.t, k.itab, NULLINODE, NULLINODE)
  {
    k.Drop(w, wd, NULLINODE);
    k.HoldingFacts(w, NULLINODE, NULLINODE);
  }

  /** The end of the loop of `n_open`. */
  method Leave(k: Lookup, ghost w: World, wd: nat, ninode: int, wanted: bool) returns (parent: Parent)
    requires wd < ITABSIZE && -1 <= ninode < ITABSIZE && k.Holding(w, wd, ninode)
    modifies k`itab, k`disk, k`error
    ensures k.Valid() && SameInodes(w.t, k.itab) && SameNodes(w.t, w.disk, k.itab, k.disk)
    ensures Adds(w.t, k.itab, ninode, if wanted then wd else NULLINODE)
    ensures parent == if wanted then Is(wd) else NotWanted
    ensures SpotOf(k.itab, ninode) == old(SpotOf(k.itab, ninode)) && SpotOf(k.itab, wd) == old(SpotOf(k.itab, wd))
    ensures k.error == if wanted || ninode != NULLINODE then old(k.error) else ENOENT
  {
    hide k.Holding, k.Valid, Adds, SameInodes, SameNodes;
    if wanted {
      parent := Is(wd);
      k.HoldingFacts(w, wd, ninode);
    } else {
      parent := NotWanted;
      k.Drop(w, wd, ninode);
      k.HoldingFacts(w, ninode, NULLINODE);
    }
    if !(wanted || ninode != NULLINODE) {
      k.error := ENOENT;
    }
  }
}
