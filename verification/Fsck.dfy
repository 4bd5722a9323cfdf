/** The directory passes of the file system checker (FSCK2.C): `ckdir` walks the
    directories and counts the entries naming each inode, `pass5` makes the link counts
    right. All questions are answered yes. */
module Fsck {
  import opened Basics
  import opened Blocks
  import opened MakeFs

  const MAXDEPTH := 20

  const ENAME := 150      // the size of the buffer for a path
  const NAME_MAX := 14    // a name of this length has no NUL behind it

  datatype Name = Dot | DotDot | Other(name: string)

  function Text(n: Name): string {
    match n
    case Dot => "."
    case DotDot => ".."
    case Other(name) => name
  }

  datatype Entry = Entry(name: Name, ino: nat)

  /** The directories, as they are on the disk. */
  type Dirs = map<nat, seq<Entry>>

  /** How many of these entries name inode n. */
  function Naming(es: seq<Entry>, n: nat): nat {
    if es == [] then 0
    else Naming(es[..|es| - 1], n) + if es[|es| - 1].ino == n && n != 0 then 1 else 0
  }

  /** How many entries of a list of directories name inode n. */
  function Counts(dirs: Dirs, ds: seq<nat>, n: nat): nat
    requires forall i :: 0 <= i < |ds| ==> ds[i] in dirs
  {
    if ds == [] then 0 else Counts(dirs, ds[..|ds| - 1], n) + Naming(dirs[ds[|ds| - 1]], n)
  }

  lemma {:induction false} CountsAppend(dirs: Dirs, a: seq<nat>, b: seq<nat>, n: nat)
    requires (forall i :: 0 <= i < |a| ==> a[i] in dirs) && (forall i :: 0 <= i < |b| ==> b[i] in dirs)
    ensures Counts(dirs, a + b, n) == Counts(dirs, a, n) + Counts(dirs, b, n)
  {
    if b == [] {
      assert a + b == a;
    } else {
      assert (a + b)[..|a + b| - 1] == a + b[..|b| - 1];
      CountsAppend(dirs, a, b[..|b| - 1], n);
    }
  }

  /** A directory tree: each directory's parent, level, and the index of the one entry of
      the parent that names it. */
  datatype Tree = Tree(par: map<nat, nat>, level: map<nat, nat>, slot: map<nat, nat>)

  /** What an entry of directory d may be in a tree. */
  predicate EntryOk(dirs: Dirs, t: Tree, links: seq<int>, d: nat, j: nat)
    requires d in dirs && d in t.par && j < |dirs[d]|
  {
    var e := dirs[d][j];
    e.ino != 0 ==>
      && e.ino < |links| && links[e.ino] != -1
      && match e.name
         case Dot => e.ino == d
         case DotDot => e.ino == t.par[d]
         case Other(name) =>
           && '/' !in name
           && (e.ino in dirs ==> e.ino != ROOTINODE && e.ino in t.par && t.par[e.ino] == d
                                 && e.ino in t.slot && t.slot[e.ino] == j)
  }

  predicate ParentOk(dirs: Dirs, t: Tree, d: nat)
    requires d in dirs && d in t.par && d in t.level
  {
    if d == ROOTINODE then t.par[d] == d && t.level[d] == 0
    else
      && d != 0 && t.par[d] in dirs && t.par[d] in t.level && t.level[d] < MAXDEPTH
      && t.level[d] == t.level[t.par[d]] + 1
      && d in t.slot && t.slot[d] < |dirs[t.par[d]]| && dirs[t.par[d]][t.slot[d]].ino == d
      && dirs[t.par[d]][t.slot[d]].name.Other?
  }

  /** A tree of at most 20 levels with right "." and ".." entries. */
  ghost predicate IsTree(dirs: Dirs, t: Tree, links: seq<int>) {
    && ROOTINODE in dirs && dirs.Keys <= t.par.Keys && dirs.Keys <= t.level.Keys
    && (forall d {:trigger ParentOk(dirs, t, d)} :: d in dirs ==> ParentOk(dirs, t, d))
    && (forall d, j: nat {:trigger EntryOk(dirs, t, links, d, j)} :: d in dirs && j < |dirs[d]| ==>
      EntryOk(dirs, t, links, d, j))
  }

  /** The path of a directory, with a slash at the end. */
  function Path(dirs: Dirs, t: Tree, d: nat): string
    requires d in dirs && dirs.Keys <= t.par.Keys && dirs.Keys <= t.level.Keys
    requires forall e :: e in dirs ==> ParentOk(dirs, t, e)
    decreases t.level[d]
  {
    assert ParentOk(dirs, t, d);
    if d == ROOTINODE then "/" else Path(dirs, t, t.par[d]) + Text(dirs[t.par[d]][t.slot[d]].name) + "/"
  }

  /** What is put behind a path fits the buffer, and it ends where it should. */
  predicate Fits(path: string, name: string) {
    |name| < NAME_MAX && |path| + |name| + 1 < ENAME
  }

  /** The path of what entry j of directory d names fits its buffer, if it is made. */
  predicate EntryFits(dirs: Dirs, t: Tree, d: nat, j: nat)
    requires d in dirs && dirs.Keys <= t.par.Keys && dirs.Keys <= t.level.Keys
    requires forall e :: e in dirs ==> ParentOk(dirs, t, e)
    requires j < |dirs[d]|
  {
    dirs[d][j].ino != 0 && dirs[d][j].name.Other? && t.level[d] + 1 < MAXDEPTH ==>
      Fits(Path(dirs, t, d), dirs[d][j].name.name)
  }

  ghost predicate DirFits(dirs: Dirs, t: Tree, links: seq<int>, d: nat, n: nat)
    requires IsTree(dirs, t, links) && d in dirs && n <= |dirs[d]|
  {
    forall j: nat :: j < n ==> EntryFits(dirs, t, d, j)
  }

  /** What a caller has to know of a tree: no path is too long. */
  ghost predicate PathsFit(dirs: Dirs, t: Tree, links: seq<int>)
    requires IsTree(dirs, t, links)
  {
    forall d :: d in dirs ==> DirFits(dirs, t, links, d, |dirs[d]|)
  }

  /** With names of at most 6 characters, 20 levels always fit. */
  predicate ShortNames(dirs: Dirs) {
    forall d, j: nat :: d in dirs && j < |dirs[d]| ==> |Text(dirs[d][j].name)| <= 6
  }

  ghost predicate AllFit(dirs: Dirs, t: Tree, links: seq<int>, ds: seq<nat>)
    requires IsTree(dirs, t, links)
  {
    forall d :: d in ds ==> d in dirs && DirFits(dirs, t, links, d, |dirs[d]|)
  }

  /** Directory x is d or below it. */
  predicate Under(dirs: Dirs, t: Tree, d: nat, x: nat)
    requires x in dirs && dirs.Keys <= t.par.Keys && dirs.Keys <= t.level.Keys
    requires forall e :: e in dirs ==> ParentOk(dirs, t, e)
    decreases t.level[x]
  {
    assert ParentOk(dirs, t, x);
    x == d || (x != ROOTINODE && Under(dirs, t, d, t.par[x]))
  }

  /** The child of d on the way to x. */
  function Branch(dirs: Dirs, t: Tree, d: nat, x: nat): nat
    requires x in dirs && dirs.Keys <= t.par.Keys && dirs.Keys <= t.level.Keys
    requires forall e :: e in dirs ==> ParentOk(dirs, t, e)
    decreases t.level[x]
  {
    assert ParentOk(dirs, t, x);
    if x == ROOTINODE || t.par[x] == d then x else Branch(dirs, t, d, t.par[x])
  }

  lemma {:induction false} UnderLevel(dirs: Dirs, t: Tree, links: seq<int>, d: nat, x: nat)
    requires IsTree(dirs, t, links) && d in dirs && x in dirs && Under(dirs, t, d, x)
    ensures t.level[d] <= t.level[x] && (t.level[d] == t.level[x] ==> d == x)
    decreases t.level[x]
  {
    assert ParentOk(dirs, t, x);
    if x != d { UnderLevel(dirs, t, links, d, t.par[x]); }
  }

  /** What is below d is below the child of d it branches off to. */
  lemma {:induction false} BelowChild(dirs: Dirs, t: Tree, links: seq<int>, d: nat, x: nat)
    requires IsTree(dirs, t, links) && d in dirs && x in dirs && x != d && Under(dirs, t, d, x)
    ensures var c := Branch(dirs, t, d, x);
            c in dirs && c != ROOTINODE && t.par[c] == d && Under(dirs, t, c, x)
    decreases t.level[x]
  {
    assert ParentOk(dirs, t, x);
    if t.par[x] != d { BelowChild(dirs, t, links, d, t.par[x]); }
  }

  lemma {:induction false} ChildBelow(dirs: Dirs, t: Tree, links: seq<int>, d: nat, c: nat, x: nat)
    requires IsTree(dirs, t, links) && c in dirs && c != ROOTINODE && t.par[c] == d && x in dirs && Under(dirs, t, c, x)
    ensures x != d && Under(dirs, t, d, x) && Branch(dirs, t, d, x) == c
    decreases t.level[x]
  {
    assert ParentOk(dirs, t, x) && ParentOk(dirs, t, c);
    UnderLevel(dirs, t, links, c, x);
    if x == c {
      assert Under(dirs, t, d, t.par[x]);
    } else {
      ChildBelow(dirs, t, links, d, c, t.par[x]);
      if t.par[x] == d { UnderLevel(dirs, t, links, c, d); }
    }
  }

  /** Every directory is below the root. */
  lemma {:induction false} AllUnderRoot(dirs: Dirs, t: Tree, links: seq<int>, x: nat)
    requires IsTree(dirs, t, links) && x in dirs
    ensures Under(dirs, t, ROOTINODE, x)
    decreases t.level[x]
  {
    assert ParentOk(dirs, t, x);
    if x != ROOTINODE { AllUnderRoot(dirs, t, links, t.par[x]); }
  }

  /** The directories seen when the first j entries of d are done: those below the
      children that these entries name. */
  ghost predicate Seen(dirs: Dirs, t: Tree, links: seq<int>, d: nat, j: nat, kids: seq<nat>)
    requires IsTree(dirs, t, links) && d in dirs
  {
    && NoDup(kids)
    && (forall x :: x in kids ==> x in dirs && x != d && Under(dirs, t, d, x) && BranchSlot(dirs, t, links, d, x) < j)
    && (forall x :: x in dirs && x != d && Under(dirs, t, d, x) && BranchSlot(dirs, t, links, d, x) < j ==> x in kids)
  }

  /** The index of the entry of d behind which x is. */
  function BranchSlot(dirs: Dirs, t: Tree, ghost links: seq<int>, d: nat, x: nat): nat
    requires dirs.Keys <= t.par.Keys && dirs.Keys <= t.level.Keys && (forall e :: e in dirs ==> ParentOk(dirs, t, e))
    requires x in dirs
  {
    var c := Branch(dirs, t, d, x);
    if c in t.slot then t.slot[c] else 0
  }

  lemma SeenMore(dirs: Dirs, t: Tree, links: seq<int>, d: nat, j: nat, kids: seq<nat>, c: nat, more: seq<nat>)
    requires IsTree(dirs, t, links) && d in dirs && j < |dirs[d]| && Seen(dirs, t, links, d, j, kids)
    requires dirs[d][j] == Entry(dirs[d][j].name, c) && dirs[d][j].name.Other? && c != 0 && c in dirs
    requires NoDup(more) && (forall x :: x in more <==> x in dirs && Under(dirs, t, c, x))
    ensures Seen(dirs, t, links, d, j + 1, kids + more)
  {
    assert EntryOk(dirs, t, links, d, j) && ParentOk(dirs, t, c);
    forall x | x in dirs && Under(dirs, t, c, x)
      ensures x != d && Under(dirs, t, d, x) && BranchSlot(dirs, t, links, d, x) == j && x !in kids
    {
      ChildBelow(dirs, t, links, d, c, x);
    }
    forall x | x in dirs && x != d && Under(dirs, t, d, x) && BranchSlot(dirs, t, links, d, x) == j ensures x in more {
      BelowChild(dirs, t, links, d, x);
      var b := Branch(dirs, t, d, x);
      assert ParentOk(dirs, t, b);
      assert b == c;
    }
    NoDupConcat(kids, more);
  }

  lemma SeenSame(dirs: Dirs, t: Tree, links: seq<int>, d: nat, j: nat, kids: seq<nat>)
    requires IsTree(dirs, t, links) && d in dirs && j < |dirs[d]| && Seen(dirs, t, links, d, j, kids)
    requires var e := dirs[d][j]; e.ino == 0 || !e.name.Other? || e.ino !in dirs
    ensures Seen(dirs, t, links, d, j + 1, kids)
  {
    forall x | x in dirs && x != d && Under(dirs, t, d, x) ensures BranchSlot(dirs, t, links, d, x) != j {
      BelowChild(dirs, t, links, d, x);
      assert ParentOk(dirs, t, Branch(dirs, t, d, x));
    }
  }

  lemma SeenNone(dirs: Dirs, t: Tree, links: seq<int>, d: nat)
    requires IsTree(dirs, t, links) && d in dirs
    ensures Seen(dirs, t, links, d, 0, []) && AllFit(dirs, t, links, []) && DirFits(dirs, t, links, d, 0)
    ensures forall n: nat :: Counts(dirs, [], n) == 0 && Naming(dirs[d][..0], n) == 0
  {
  }

  lemma SeenAll(dirs: Dirs, t: Tree, links: seq<int>, d: nat, kids: seq<nat>)
    requires IsTree(dirs, t, links) && d in dirs && Seen(dirs, t, links, d, |dirs[d]|, kids)
    ensures NoDup(kids + [d]) && forall x :: x in kids + [d] <==> x in dirs && Under(dirs, t, d, x)
  {
    forall x | x in dirs && x != d && Under(dirs, t, d, x) ensures x in kids {
      BelowChild(dirs, t, links, d, x);
      assert ParentOk(dirs, t, Branch(dirs, t, d, x));
    }
  }

  /** A directory named by an entry of d is a child of d. */
  lemma ChildGoes(dirs: Dirs, t: Tree, links: seq<int>, d: nat, j: nat)
    requires IsTree(dirs, t, links) && d in dirs && j < |dirs[d]| && dirs[d][j].ino != 0
    requires dirs[d][j].name.Other? && dirs[d][j].ino in dirs
    ensures var c := dirs[d][j].ino;
            c != d && c != t.par[d] && t.par[c] == d && t.level[c] == t.level[d] + 1 < MAXDEPTH
  {
    assert EntryOk(dirs, t, links, d, j) && ParentOk(dirs, t, dirs[d][j].ino) && ParentOk(dirs, t, d);
  }

  /** Counting does not make a tree anything else. */
  lemma SameTree(dirs: Dirs, t: Tree, links: seq<int>, more: seq<int>)
    requires IsTree(dirs, t, links) && |links| == |more|
    requires forall n :: 0 <= n < |links| ==> (links[n] == -1 <==> more[n] == -1)
    ensures IsTree(dirs, t, more)
  {
    forall d, j: nat | d in dirs && j < |dirs[d]| ensures EntryOk(dirs, t, more, d, j) {
      assert EntryOk(dirs, t, links, d, j);
    }
  }

  /** An inode as pass 5 looks at it. */
  datatype Inode = Inode(used: bool, device: bool, empty: bool, nlink: int) {
    /** Not worth keeping when no entry names it. */
    predicate Useless() {
      device || empty || nlink == 0
    }
  }

  /** The detached inodes below n, those that are useless or those that are not. */
  function Detached(inodes: seq<Inode>, links: seq<int>, n: nat, useless: bool): (ks: seq<nat>)
    requires n <= |inodes| && n <= |links|
    ensures forall k :: k in ks <==>
      ROOTINODE <= k < n && inodes[k].used && links[k] == 0 && inodes[k].Useless() == useless
  {
    if n <= ROOTINODE then []
    else
      var d := inodes[n - 1].used && links[n - 1] == 0 && inodes[n - 1].Useless() == useless;
      Detached(inodes, links, n - 1, useless) + if d then [n - 1] else []
  }

  function Digits(n: nat): string {
    (if n < 10 then "" else Digits(n / 10)) + [('0' as int + n % 10) as char]
  }

  /** A 16-bit number printed as a signed one. */
  function Decimal(n: nat): string {
    if n < 32768 then Digits(n) else if n < 65536 then "-" + Digits(65536 - n) else ""
  }

  function NoEntry(): Entry {
    Entry(Other(""), 0)
  }

  function LostEntry(n: nat): Entry {
    Entry(Other("l+f" + Decimal(n)), n)
  }

  /** The slots of a directory without an entry, from slot j on. */
  function EmptySlots(es: seq<Entry>, j: nat): (ks: seq<nat>)
    ensures forall k :: k in ks <==> j <= k < |es| && es[k] == NoEntry()
    decreases |es| - j
  {
    if j >= |es| then [] else (if es[j] == NoEntry() then [j] else []) + EmptySlots(es, j + 1)
  }

  lemma {:induction false} FirstEmptyIs(es: seq<Entry>, j: nat, d: nat)
    requires j <= d < |es| && es[d] == NoEntry() && forall k :: j <= k < d ==> es[k] != NoEntry()
    ensures EmptySlots(es, j) != [] && EmptySlots(es, j)[0] == d
    decreases |es| - j
  {
    if j < d { FirstEmptyIs(es, j + 1, d); }
  }

  lemma NoneEmpty(es: seq<Entry>, j: nat)
    requires forall k :: j <= k < |es| ==> es[k] != NoEntry()
    ensures EmptySlots(es, j) == []
  {
    if EmptySlots(es, j) != [] { assert EmptySlots(es, j)[0] in EmptySlots(es, j); }
  }

  /** The directories with an entry for inode n in the first empty slot of the root. */
  function WithEntry(dirs: Dirs, n: nat): (r: Dirs)
    ensures r.Keys == dirs.Keys
  {
    if ROOTINODE !in dirs || EmptySlots(dirs[ROOTINODE], 0) == [] then dirs
    else
      var es := dirs[ROOTINODE];
      assert EmptySlots(es, 0)[0] in EmptySlots(es, 0);
      dirs[ROOTINODE := es[EmptySlots(es, 0)[0] := LostEntry(n)]]
  }

  function WithEntries(dirs: Dirs, ks: seq<nat>): (r: Dirs)
    ensures r.Keys == dirs.Keys
  {
    if ks == [] then dirs else WithEntry(WithEntries(dirs, ks[..|ks| - 1]), ks[|ks| - 1])
  }

  lemma WithOneMore(dirs: Dirs, ks: seq<nat>, k: nat)
    ensures WithEntries(dirs, ks + [k]) == WithEntry(WithEntries(dirs, ks), k)
  {
    assert (ks + [k])[..|ks|] == ks;
  }

  lemma DetachedMore(inodes: seq<Inode>, links: seq<int>, n: nat, useless: bool)
    requires ROOTINODE <= n < |inodes| && n < |links|
    ensures var ks := Detached(inodes, links, n, useless);
            Detached(inodes, links, n + 1, useless) ==
            if inodes[n].used && links[n] == 0 && inodes[n].Useless() == useless then ks + [n] else ks
  {
    var ks := Detached(inodes, links, n, useless);
    assert ks + [] == ks;
  }

  lemma {:induction false} SlotFilled(es: seq<Entry>, j: nat, e: Entry)
    requires e != NoEntry() && EmptySlots(es, j) != []
    ensures EmptySlots(es, j)[0] < |es|
    ensures EmptySlots(es[EmptySlots(es, j)[0] := e], j) == EmptySlots(es, j)[1..]
    decreases |es| - j
  {
    assert EmptySlots(es, j)[0] in EmptySlots(es, j);
    var p := EmptySlots(es, j)[0];
    if es[j] == NoEntry() {
      SameSlots(es, es[p := e], j + 1);
    } else {
      SlotFilled(es, j + 1, e);
    }
  }

  lemma {:induction false} SameSlots(es: seq<Entry>, fs: seq<Entry>, j: nat)
    requires |es| == |fs| && forall k :: j <= k < |es| ==> es[k] == fs[k]
    ensures EmptySlots(es, j) == EmptySlots(fs, j)
    decreases |es| - j
  {
    if j < |es| { SameSlots(es, fs, j + 1); }
  }

  /** Directory fs is es with entries for the inodes ks in the first of its empty slots,
      in their order, as many as there are slots. */
  predicate Filled(es: seq<Entry>, fs: seq<Entry>, ks: seq<nat>) {
    var free := EmptySlots(es, 0);
    && |fs| == |es|
    && (forall k :: 0 <= k < |es| && k !in free ==> fs[k] == es[k])
    && (forall i :: 0 <= i < |free| ==>
          free[i] < |es| && fs[free[i]] == if i < |ks| then LostEntry(ks[i]) else NoEntry())
    && EmptySlots(fs, 0) == free[Min(|ks|, |free|)..]
  }

  lemma FilledNone(es: seq<Entry>)
    ensures Filled(es, es, [])
  {
    var free := EmptySlots(es, 0);
    forall i | 0 <= i < |free| ensures free[i] < |es| && es[free[i]] == NoEntry() { assert free[i] in free; }
  }

  lemma FilledMore(es: seq<Entry>, fs: seq<Entry>, ks: seq<nat>, k: nat)
    requires Filled(es, fs, ks) && k != 0 && EmptySlots(fs, 0) != []
    ensures EmptySlots(fs, 0)[0] < |fs| && Filled(es, fs[EmptySlots(fs, 0)[0] := LostEntry(k)], ks + [k])
  {
    var free, left := EmptySlots(es, 0), EmptySlots(fs, 0);
    SlotFilled(fs, 0, LostEntry(k));
    Rising(es, 0);
    hide EmptySlots, LostEntry;
    NextFilled(es, fs, free, left, ks, k);
  }

  lemma NextFilled(es: seq<Entry>, fs: seq<Entry>, free: seq<nat>, left: seq<nat>, ks: seq<nat>, k: nat)
    requires |fs| == |es| && left != [] && left == free[Min(|ks|, |free|)..] && left[0] < |fs|
    requires forall a, b :: 0 <= a < b < |free| ==> free[a] < free[b]
    requires forall j :: 0 <= j < |es| && j !in free ==> fs[j] == es[j]
    requires forall i :: 0 <= i < |free| ==>
      free[i] < |es| && fs[free[i]] == if i < |ks| then LostEntry(ks[i]) else NoEntry()
    ensures var gs := fs[left[0] := LostEntry(k)];
            && (forall j :: 0 <= j < |es| && j !in free ==> gs[j] == es[j])
            && (forall i :: 0 <= i < |free| ==>
                  gs[free[i]] == if i < |ks + [k]| then LostEntry((ks + [k])[i]) else NoEntry())
            && left[1..] == free[Min(|ks + [k]|, |free|)..]
  {
    hide LostEntry;
    var n := |ks|;
    assert n < |free| && left[0] == free[n];
    assert forall i :: 0 <= i < |free| && free[i] == free[n] ==> i == n;
  }

  lemma FilledUp(es: seq<Entry>, fs: seq<Entry>, ks: seq<nat>, k: nat)
    requires Filled(es, fs, ks) && EmptySlots(fs, 0) == []
    ensures Filled(es, fs, ks + [k])
  {
    hide EmptySlots, LostEntry;
  }

  /** The inodes go to the empty slots of the root; no other directory changes. */
  lemma {:induction false} EntriesAre(dirs: Dirs, ks: seq<nat>)
    requires ROOTINODE in dirs && 0 !in ks
    ensures forall d :: d in dirs && d != ROOTINODE ==> WithEntries(dirs, ks)[d] == dirs[d]
    ensures Filled(dirs[ROOTINODE], WithEntries(dirs, ks)[ROOTINODE], ks)
  {
    hide Filled, EmptySlots, LostEntry;
    if ks == [] {
      FilledNone(dirs[ROOTINODE]);
    } else {
      var before, k := ks[..|ks| - 1], ks[|ks| - 1];
      assert before + [k] == ks;
      EntriesAre(dirs, before);
      var gs := WithEntries(dirs, before)[ROOTINODE];
      if EmptySlots(gs, 0) == [] {
        FilledUp(dirs[ROOTINODE], gs, before, k);
      } else {
        FilledMore(dirs[ROOTINODE], gs, before, k);
      }
    }
  }

  lemma {:induction false} Rising(es: seq<Entry>, j: nat)
    ensures forall a, b :: 0 <= a < b < |EmptySlots(es, j)| ==> EmptySlots(es, j)[a] < EmptySlots(es, j)[b]
    decreases |es| - j
  {
    if j < |es| {
      Rising(es, j + 1);
      var rest := EmptySlots(es, j + 1);
      forall b | 0 <= b < |rest| ensures rest[b] > j { assert rest[b] in rest; }
    }
  }

  // What `ckdir` does to the entries, on any graph of directories.

  /** The inodes that entries may name. */
  function Used(links: seq<int>): set<nat> {
    set n: nat | ROOTINODE <= n < |links| && links[n] != -1
  }

  /** The name with an X for every slash. */
  function NoSlashes(name: string): (r: string)
    ensures |r| == |name| && '/' !in r && ('/' !in name ==> r == name)
  {
    seq(|name|, i requires 0 <= i < |name| => if name[i] == '/' then 'X' else name[i])
  }

  /** What becomes of an entry of directory d, visited from directory p. */
  function Repaired(e: Entry, d: nat, p: nat, used: set<nat>): Entry {
    if e.ino == 0 then e
    else if e.ino !in used then NoEntry()
    else
      match e.name
      case Dot => Entry(Dot, d)
      case DotDot => Entry(DotDot, p)
      case Other(name) => Entry(Other(NoSlashes(name)), e.ino)
  }

  /** Directory p has an entry for d by a name, or both are the root. */
  ghost predicate Parent(dirs: Dirs, used: set<nat>, p: nat, d: nat) {
    && p in used && d in used
    && (p == d == ROOTINODE
        || (p in dirs && exists k :: 0 <= k < |dirs[p]| && dirs[p][k].name.Other? && dirs[p][k].ino == d))
  }

  /** An entry with nothing to repair: one that names an inode in use, its own directory if
      it is `.`, one that has an entry for its directory if it is `..`. */
  ghost predicate Sound(dirs: Dirs, used: set<nat>, d: nat, k: nat)
    requires d in dirs && k < |dirs[d]|
  {
    var e := dirs[d][k];
    e.ino != 0 ==>
      && e.ino in used
      && match e.name
         case Dot => e.ino == d
         case DotDot => Parent(dirs, used, e.ino, d)
         case Other(name) => '/' !in name
  }

  /** The first n entries of a directory are sound. */
  ghost predicate SoundTo(dirs: Dirs, used: set<nat>, d: nat, n: nat) {
    d in dirs && n <= |dirs[d]| && forall k: nat :: k < n ==> Sound(dirs, used, d, k)
  }

  /** An entry is as it was, or repaired for a visit from a directory that has an entry
      for its own. */
  ghost predicate Mended(a: Dirs, b: Dirs, used: set<nat>, d: nat, k: nat)
    requires d in a && d in b && k < |a[d]| == |b[d]|
  {
    b[d][k] == a[d][k] || exists p :: Parent(b, used, p, d) && b[d][k] == Repaired(a[d][k], d, p, used)
  }

  ghost predicate AllMended(a: Dirs, b: Dirs, used: set<nat>) {
    && b.Keys == a.Keys && (forall d :: d in a ==> |b[d]| == |a[d]|)
    && forall d, k: nat {:trigger Mended(a, b, used, d, k)} :: d in a && k < |a[d]| ==> Mended(a, b, used, d, k)
  }

  /** The directories ds are sound, and besides them only d has changed; all changes are
      repairs. */
  ghost predicate Tended(a: Dirs, b: Dirs, used: set<nat>, ds: seq<nat>, d: nat) {
    && AllMended(a, b, used) && (forall x :: x in ds ==> x in b && SoundTo(b, used, x, |b[x]|))
    && forall x :: x in a && x != d && x !in ds ==> b[x] == a[x]
  }

  /** Repairs leave a directory the parent of its children. */
  lemma ParentStays(a: Dirs, b: Dirs, used: set<nat>, p: nat, d: nat)
    requires AllMended(a, b, used) && Parent(a, used, p, d)
    ensures Parent(b, used, p, d)
  {
    if !(p == d == ROOTINODE) {
      var k :| 0 <= k < |a[p]| && a[p][k].name.Other? && a[p][k].ino == d;
      assert Mended(a, b, used, p, k);
    }
  }

  /** Repairs make no entry unsound. */
  lemma SoundStays(a: Dirs, b: Dirs, used: set<nat>, d: nat, k: nat)
    requires AllMended(a, b, used) && d in a && k < |a[d]| && Sound(a, used, d, k)
    ensures d in b && |b[d]| == |a[d]| && Sound(b, used, d, k)
  {
    hide Parent;
    assert Mended(a, b, used, d, k);
    if a[d][k].ino != 0 && a[d][k].name.DotDot? { ParentStays(a, b, used, a[d][k].ino, d); }
    if p :| Parent(b, used, p, d) && b[d][k] == Repaired(a[d][k], d, p, used) { ParentUsed(b, used, p, d); }
  }

  lemma ParentUsed(b: Dirs, used: set<nat>, p: nat, d: nat)
    requires Parent(b, used, p, d)
    ensures p in used && d in used
  {
  }

  /** A repaired entry is sound. */
  lemma RepairedSound(a: Dirs, b: Dirs, used: set<nat>, d: nat, k: nat, p: nat)
    requires d in a && d in b && k < |a[d]| == |b[d]| && Parent(b, used, p, d)
    requires b[d][k] == Repaired(a[d][k], d, p, used)
    ensures Sound(b, used, d, k)
  {
  }

  lemma MendedTwice(a: Dirs, b: Dirs, c: Dirs, used: set<nat>)
    requires AllMended(a, b, used) && AllMended(b, c, used)
    ensures AllMended(a, c, used)
  {
    hide Parent;
    forall d, k: nat | d in a && k < |a[d]| ensures Mended(a, c, used, d, k) {
      assert Mended(a, b, used, d, k) && Mended(b, c, used, d, k);
      if b[d][k] != a[d][k] {
        var p :| Parent(b, used, p, d) && b[d][k] == Repaired(a[d][k], d, p, used);
        ParentStays(b, c, used, p, d);
        ParentUsed(b, used, p, d);
      }
    }
  }

  lemma TendedMore(a: Dirs, b: Dirs, c: Dirs, used: set<nat>, ds: seq<nat>, more: seq<nat>, d: nat)
    requires Tended(a, b, used, ds, d) && Tended(b, c, used, more, d)
    ensures Tended(a, c, used, ds + more, d)
  {
    hide Parent, Sound, Mended;
    MendedTwice(a, b, c, used);
    forall x | x in ds ensures x in c && SoundTo(c, used, x, |c[x]|) { SoundToStays(b, c, used, x, |b[x]|); }
  }

  lemma SoundToStays(a: Dirs, b: Dirs, used: set<nat>, d: nat, n: nat)
    requires AllMended(a, b, used) && SoundTo(a, used, d, n)
    ensures d in b && |b[d]| == |a[d]| && SoundTo(b, used, d, n)
  {
    hide Sound;
    forall k: nat | k < n ensures Sound(b, used, d, k) { SoundStays(a, b, used, d, k); }
  }

  lemma TendedNone(a: Dirs, used: set<nat>, d: nat)
    ensures Tended(a, a, used, [], d) && (d in a ==> SoundTo(a, used, d, 0))
  {
    hide Parent, Sound;
  }

  /** One more entry of d is done, with the directories below it. */
  lemma TendedStep(a: Dirs, b: Dirs, c: Dirs, used: set<nat>, ds: seq<nat>, more: seq<nat>, d: nat, j: nat)
    requires Tended(a, b, used, ds, d) && SoundTo(b, used, d, j)
    requires ds <= more && Tended(b, c, used, more[|ds|..], d) && d in c && j < |c[d]| && Sound(c, used, d, j)
    ensures Tended(a, c, used, more, d) && SoundTo(c, used, d, j + 1)
  {
    hide Parent, Sound, Mended;
    assert more == ds + more[|ds|..];
    TendedMore(a, b, c, used, ds, more[|ds|..], d);
    SoundToStays(b, c, used, d, j);
  }

  lemma TendedLast(a: Dirs, b: Dirs, used: set<nat>, ds: seq<nat>, d: nat)
    requires Tended(a, b, used, ds, d) && d in b && SoundTo(b, used, d, |b[d]|)
    ensures Tended(a, b, used, ds + [d], d)
  {
    hide Sound, Mended;
  }

  /** What is done below an entry is no other change of its directory. */
  lemma TendedBelow(a: Dirs, b: Dirs, used: set<nat>, ds: seq<nat>, c: nat, d: nat)
    requires Tended(a, b, used, ds, c) && (c in b ==> c in ds)
    ensures Tended(a, b, used, ds, d)
  {
    hide Sound, Mended;
  }

  lemma NoChange(a: Dirs, d: nat, j: nat)
    requires d in a && j < |a[d]|
    ensures a[d := a[d][j := a[d][j]]] == a
  {
    assert a[d][j := a[d][j]] == a[d];
  }

  /** Names do not get longer by repairs. */
  lemma ShortStays(a: Dirs, d: nat, j: nat, p: nat, used: set<nat>)
    requires d in a && j < |a[d]| && ShortNames(a)
    ensures |Text(Repaired(a[d][j], d, p, used).name)| <= 6
    ensures ShortNames(a[d := a[d][j := Repaired(a[d][j], d, p, used)]])
  {
    var r := Repaired(a[d][j], d, p, used);
    assert |Text(a[d][j].name)| <= 6;
  }

  /** Repairing one entry. */
  lemma RepairTended(a: Dirs, used: set<nat>, d: nat, p: nat, j: nat)
    requires d in a && j < |a[d]| && Parent(a, used, p, d)
    ensures var r := Repaired(a[d][j], d, p, used); var b := a[d := a[d][j := r]];
            && Tended(a, b, used, [], d) && Sound(b, used, d, j)
            && (r.ino == 0 || r.ino == p || r.ino == d || Parent(b, used, d, r.ino))
  {
    var r := Repaired(a[d][j], d, p, used);
    var b: Dirs := a[d := a[d][j := r]];
    if !(p == d == ROOTINODE) {
      var k :| 0 <= k < |a[p]| && a[p][k].name.Other? && a[p][k].ino == d;
      assert b[p][k].name.Other? && b[p][k].ino == d;
    }
    assert Parent(b, used, p, d);
    RepairedSound(a, b, used, d, j, p);
    if r.ino !in {0, p, d} { assert b[d][j].name.Other?; }
  }

  lemma TendedParent(a: Dirs, b: Dirs, used: set<nat>, ds: seq<nat>, p: nat, d: nat)
    requires Tended(a, b, used, ds, d) && Parent(a, used, p, d)
    ensures Parent(b, used, p, d)
  {
    hide Sound, Mended;
    ParentStays(a, b, used, p, d);
  }

  lemma TendedKeepsSound(a: Dirs, b: Dirs, used: set<nat>, ds: seq<nat>, d: nat, j: nat)
    requires Tended(a, b, used, ds, d) && d in a && j < |a[d]| && Sound(a, used, d, j)
    ensures d in b && j < |b[d]| && Sound(b, used, d, j)
  {
    SoundStays(a, b, used, d, j);
  }

  lemma TendedMends(a: Dirs, b: Dirs, used: set<nat>, ds: seq<nat>, d: nat)
    requires Tended(a, b, used, ds, d)
    ensures AllMended(a, b, used) && b.Keys == a.Keys && forall x :: x in a ==> |b[x]| == |a[x]|
  {
  }

  /** The first j entries of d are done, which was visited from p: they are sound, and so
      is what they lead to. */
  ghost predicate Tending(a: Dirs, b: Dirs, used: set<nat>, d: nat, p: nat, n: int, ds: seq<nat>, j: nat) {
    && d in a && d in b && j <= |b[d]| == |a[d]|
    && Parent(a, used, p, d) && Parent(b, used, p, d)
    && Tended(a, b, used, ds, d) && SoundTo(b, used, d, j) && ReachesTo(a, used, d, p, n, ds, j)
  }

  lemma TendingNone(a: Dirs, used: set<nat>, d: nat, p: nat, n: int)
    requires d in a && Parent(a, used, p, d)
    ensures Tending(a, a, used, d, p, n, [], 0)
  {
    hide Parent, Sound;
    TendedNone(a, used, d);
  }

  lemma TendingParent(a: Dirs, b: Dirs, used: set<nat>, d: nat, p: nat, n: int, ds: seq<nat>, j: nat)
    requires Tending(a, b, used, d, p, n, ds, j)
    ensures Parent(b, used, p, d)
  {
  }

  lemma TendingStep(a: Dirs, b: Dirs, c: Dirs, used: set<nat>, d: nat, p: nat, n: int, ds: seq<nat>, more: seq<nat>,
                    j: nat)
    requires Tending(a, b, used, d, p, n, ds, j)
    requires ds <= more && Tended(b, c, used, more[|ds|..], d) && d in b && d in c && j < |b[d]| && j < |c[d]|
    requires Sound(c, used, d, j) && ReachesBy(b, used, d, p, n, more[|ds|..], j)
    ensures Tending(a, c, used, d, p, n, more, j + 1)
  {
    hide Tended, SoundTo, Sound, ReachesBy, AllMended, Parent;
    TendedMends(a, b, used, ds, d);
    ReachesStep(a, b, used, d, p, n, ds, more, j);
    TendedStep(a, b, c, used, ds, more, d, j);
    TendedMends(a, c, used, more, d);
    TendedParent(a, c, used, more, p, d);
  }

  lemma TendingAll(a: Dirs, b: Dirs, used: set<nat>, d: nat, p: nat, n: int, ds: seq<nat>)
    requires d in a && Tending(a, b, used, d, p, n, ds, |a[d]|)
    ensures Tended(a, b, used, ds + [d], d) && Reaches(a, used, d, p, n, ds + [d])
  {
    hide Tended, SoundTo, Sound, ReachesBy, AllMended, Parent;
    TendedLast(a, b, used, ds, d);
    ReachesAll(a, used, d, p, n, ds);
  }

  /** An entry is repaired, and then followed. */
  lemma EntryFollowed(a: Dirs, b: Dirs, c: Dirs, used: set<nat>, d: nat, p: nat, n: int, j: nat, more: seq<nat>)
    requires Tended(a, b, used, [], d) && Tended(b, c, used, more, d) && d in a && d in b && j < |b[d]|
    requires j < |a[d]| && Sound(b, used, d, j)
    requires a[d][j].name.Other? && a[d][j].ino in used && a[d][j].ino !in {p, d} && n > 1 ==>
               Reaches(b, used, a[d][j].ino, d, n - 1, more)
    ensures Tended(a, c, used, more, d) && ReachesBy(a, used, d, p, n, more, j)
    ensures d in c && j < |c[d]| && Sound(c, used, d, j)
  {
    hide Tended, Sound, Reaches, ReachesBy, AllMended;
    TendedMore(a, b, c, used, [], more, d);
    TendedKeepsSound(b, c, used, more, d, j);
    assert [] + more == more;
    TendedMends(a, b, used, [], d);
    FollowReaches(a, b, used, d, p, n, j, more);
  }

  lemma ZeroFree(links: seq<int>)
    ensures 0 !in Used(links)
  {
  }

  lemma SameUsed(links: seq<int>, more: seq<int>)
    requires |links| == |more| && forall n :: 0 <= n < |links| ==> (links[n] == -1 <==> more[n] == -1)
    ensures Used(links) == Used(more)
  {
  }

  /** Directory p has an entry for inode d by a name. */
  ghost predicate Names(dirs: Dirs, used: set<nat>, p: nat, d: nat) {
    && p in dirs && d in used
    && exists k :: 0 <= k < |dirs[p]| && dirs[p][k].name.Other? && dirs[p][k].ino == d
  }

  /** Directories, each with an entry for the next. */
  ghost predicate Chain(dirs: Dirs, used: set<nat>, cs: seq<nat>) {
    && cs != [] && NoDup(cs) && (forall c :: c in cs ==> c in dirs)
    && forall i :: 0 <= i < |cs| - 1 ==> Names(dirs, used, cs[i], cs[i + 1])
  }

  /** The end of every chain from d, without p behind d and of at most n directories, is
      in ds. */
  ghost predicate Reaches(dirs: Dirs, used: set<nat>, d: nat, p: nat, n: int, ds: seq<nat>) {
    forall cs: seq<nat> {:trigger Chain(dirs, used, cs)} ::
      Chain(dirs, used, cs) && cs[0] == d && p !in cs[1..] && |cs| <= n ==> cs[|cs| - 1] in ds
  }

  /** The same for the chains that go on with what entry j names. */
  ghost predicate ReachesBy(dirs: Dirs, used: set<nat>, d: nat, p: nat, n: int, ds: seq<nat>, j: nat)
    requires d in dirs && j < |dirs[d]|
  {
    dirs[d][j].name.Other? ==>
      forall cs: seq<nat> {:trigger Chain(dirs, used, cs)} ::
        Chain(dirs, used, cs) && cs[0] == d && p !in cs[1..] && 1 < |cs| <= n && cs[1] == dirs[d][j].ino ==>
          cs[|cs| - 1] in ds
  }

  lemma ChainStays(a: Dirs, b: Dirs, used: set<nat>, cs: seq<nat>)
    requires AllMended(a, b, used) && Chain(a, used, cs)
    ensures Chain(b, used, cs)
  {
    hide NoDup;
    forall i | 0 <= i < |cs| - 1 ensures Names(b, used, cs[i], cs[i + 1]) {
      assert Names(a, used, cs[i], cs[i + 1]);
      var k :| 0 <= k < |a[cs[i]]| && a[cs[i]][k].name.Other? && a[cs[i]][k].ino == cs[i + 1];
      NamedStays(a, b, used, cs[i], k);
    }
  }

  lemma NamedStays(a: Dirs, b: Dirs, used: set<nat>, d: nat, k: nat)
    requires AllMended(a, b, used) && d in a && k < |a[d]| && a[d][k].name.Other? && a[d][k].ino in used
    ensures d in b && k < |b[d]| && b[d][k].name.Other? && b[d][k].ino == a[d][k].ino
  {
    hide Parent;
    assert Mended(a, b, used, d, k);
  }

  /** What is reached when an entry is followed. */
  lemma FollowReaches(a: Dirs, b: Dirs, used: set<nat>, d: nat, p: nat, n: int, j: nat, more: seq<nat>)
    requires AllMended(a, b, used) && d in a && j < |a[d]| && d in b && j < |b[d]|
    requires a[d][j].name.Other? && a[d][j].ino in used && a[d][j].ino !in {p, d} && n > 1 ==>
               Reaches(b, used, a[d][j].ino, d, n - 1, more)
    ensures ReachesBy(a, used, d, p, n, more, j)
  {
    hide AllMended, Names;
    forall cs: seq<nat> | Chain(a, used, cs) && cs[0] == d && p !in cs[1..] && 1 < |cs| <= n &&
      a[d][j].name.Other? && a[d][j].ino == cs[1]
      ensures cs[|cs| - 1] in more
    {
      ChainStays(a, b, used, cs);
      assert cs[1] in cs[1..];
      assert Names(a, used, cs[0], cs[1]);
      ChainTail(b, used, cs);
      assert cs[1..][|cs[1..]| - 1] == cs[|cs| - 1];
    }
  }

  /** The same for the first j entries. */
  ghost predicate ReachesTo(dirs: Dirs, used: set<nat>, d: nat, p: nat, n: int, ds: seq<nat>, j: nat) {
    d in dirs && j <= |dirs[d]| && forall k: nat :: k < j ==> ReachesBy(dirs, used, d, p, n, ds, k)
  }

  lemma ReachesStep(a: Dirs, b: Dirs, used: set<nat>, d: nat, p: nat, n: int, ds: seq<nat>, more: seq<nat>, j: nat)
    requires AllMended(a, b, used) && ReachesTo(a, used, d, p, n, ds, j) && ds <= more && j < |a[d]|
    requires d in b && |b[d]| == |a[d]| && ReachesBy(b, used, d, p, n, more[|ds|..], j)
    ensures ReachesTo(a, used, d, p, n, more, j + 1)
  {
    hide AllMended, Names;
    forall k: nat | k <= j ensures ReachesBy(a, used, d, p, n, more, k) {
      if k < j {
        assert ReachesBy(a, used, d, p, n, ds, k);
      } else if a[d][j].name.Other? {
        forall cs: seq<nat> | Chain(a, used, cs) && cs[0] == d && p !in cs[1..] && 1 < |cs| <= n && cs[1] == a[d][j].ino
          ensures cs[|cs| - 1] in more
        {
          ChainStays(a, b, used, cs);
          ChainTail(a, used, cs);
          NamedStays(a, b, used, d, j);
          assert cs[|cs| - 1] in more[|ds|..];
        }
      }
    }
  }

  lemma NoneReached(a: Dirs, used: set<nat>, d: nat, p: nat, n: int)
    requires d !in a
    ensures Reaches(a, used, d, p, n, [])
  {
    assert forall cs: seq<nat> :: Chain(a, used, cs) ==> cs[0] in cs;
  }

  lemma ReachesAll(a: Dirs, used: set<nat>, d: nat, p: nat, n: int, ds: seq<nat>)
    requires d in a && ReachesTo(a, used, d, p, n, ds, |a[d]|)
    ensures Reaches(a, used, d, p, n, ds + [d])
  {
    hide NoDup;
    forall cs: seq<nat> | Chain(a, used, cs) && cs[0] == d && p !in cs[1..] && |cs| <= n
      ensures cs[|cs| - 1] in ds + [d]
    {
      if |cs| > 1 {
        assert Names(a, used, cs[0], cs[1]);
        var k :| 0 <= k < |a[d]| && a[d][k].name.Other? && a[d][k].ino == cs[1];
        assert ReachesBy(a, used, d, p, n, ds, k);
      }
    }
  }

  lemma ChainTail(dirs: Dirs, used: set<nat>, cs: seq<nat>)
    requires Chain(dirs, used, cs) && |cs| > 1
    ensures Chain(dirs, used, cs[1..]) && cs[0] !in cs[2..] && cs[0] != cs[1] && cs[1] in used
    ensures cs[2..] == cs[1..][1..]
  {
    hide Names;
    assert Names(dirs, used, cs[0], cs[1]);
    NamesUsed(dirs, used, cs[0], cs[1]);
    forall i | 0 <= i < |cs[1..]| - 1 ensures Names(dirs, used, cs[1..][i], cs[1..][i + 1]) {
      assert Names(dirs, used, cs[i + 1], cs[i + 2]);
    }
  }

  lemma NamesUsed(dirs: Dirs, used: set<nat>, p: nat, d: nat)
    requires Names(dirs, used, p, d)
    ensures d in used
  {
  }

  /** The work of `ckdir` on one entry, unless that is followed. */
  ghost predicate Checked(a: Dirs, la: seq<int>, b: Dirs, lb: seq<int>, d: nat, p: nat, j: nat)
    requires d in a && j < |a[d]|
  {
    var e := a[d][j];
    && b == a[d := a[d][j := Repaired(e, d, p, Used(la))]]
    && lb == if e.ino in Used(la) then la[e.ino := la[e.ino] + 1] else la
  }

  class Checker {
    var dirs: Dirs
    var linkmap: seq<int>
    var depth: int
    var inodes: seq<Inode>
    var tinode: int

    constructor (dirs: Dirs, linkmap: seq<int>, inodes: seq<Inode>, tinode: int)
      ensures this.dirs == dirs && this.linkmap == linkmap && this.inodes == inodes && depth == 0
    {
      this.dirs, this.linkmap, this.inodes, this.tinode, depth := dirs, linkmap, inodes, tinode, 0;
    }

    /** What `ckdir` did to the counts, if the directories are a tree: it saw the
        directories ds, each once, and counted their entries. */
    ghost predicate Counted(dirs0: Dirs, links0: seq<int>, ds: seq<nat>)
      reads this
    {
      && dirs == dirs0 && |linkmap| == |links0| && (forall i :: 0 <= i < |ds| ==> ds[i] in dirs0)
      && (forall n: nat :: n < |links0| ==> linkmap[n] == links0[n] + Counts(dirs0, ds, n))
    }

    /** Free inodes stay marked -1 and the others are not, whatever is counted. */
    ghost predicate SameMarks(links0: seq<int>)
      reads this
    {
      && |linkmap| == |links0|
      && forall n :: 0 <= n < |linkmap| ==>
           links0[n] <= linkmap[n] && (linkmap[n] == -1 <==> links0[n] == -1)
    }

    /** `ckdir`. It ends on every graph of directories, with the depth as it was, unless a
        path overruns its buffer; then nothing is promised, but with names of at most 6
        characters none does. In a tree it sees each directory
        below inum once and repairs nothing. On any graph it only repairs entries, and in
        every directory that it saw none is left to repair. */
    method Ckdir(inum: nat, pnum: nat, name: string, ghost t: Tree) returns (ok: bool, ghost ds: seq<nat>)
      requires 0 <= depth < MAXDEPTH && forall n :: 0 <= n < |linkmap| ==> linkmap[n] >= -1
      modifies this`dirs, this`linkmap, this`depth
      ensures ok ==> depth == old(depth) && SameMarks(old(linkmap))
      ensures ok ==> dirs.Keys == old(dirs).Keys && forall d :: d in dirs ==> |dirs[d]| == |old(dirs)[d]|
      ensures inum !in old(dirs) ==> ok && ds == [] && dirs == old(dirs) && linkmap == old(linkmap)
      ensures At(old(dirs), old(linkmap), t, inum, pnum, name, old(depth)) ==>
                && (PathsFit(old(dirs), t, old(linkmap)) ==> ok)
                && (ok ==> Visited(old(dirs), old(linkmap), t, inum, ds))
      ensures old(ShortNames(dirs)) && |name| <= 1 + 7 * old(depth) ==> ok && ShortNames(dirs)
      ensures ok && old(Parent(dirs, Used(linkmap), pnum, inum)) ==>
                && Tended(old(dirs), dirs, old(Used(linkmap)), ds, inum) && (inum in dirs ==> inum in ds)
                && Reaches(old(dirs), old(Used(linkmap)), inum, pnum, MAXDEPTH - old(depth), ds)
      decreases MAXDEPTH - depth, 1
    {
      hide Counts, Naming, Under, NoDup, ParentOk, Seen, EntryOk, AllFit, DirFits, PathsFit, Path, IsTree;
      hide Tended, Parent, Used, Progress, Tending, Reaches;
      ghost var tree, proper := At(dirs, linkmap, t, inum, pnum, name, depth), Parent(dirs, Used(linkmap), pnum, inum);
      ok, ds := true, [];
      if inum !in dirs {
        TendedNone(dirs, Used(linkmap), inum);
        NoneReached(dirs, Used(linkmap), inum, pnum, MAXDEPTH - depth);
        return;
      }
      depth := depth + 1;
      ok, ds := Entries(inum, pnum, name, t, tree);
      if !ok { return; }
      if proper {
        TendingAll(old(dirs), dirs, old(Used(linkmap)), inum, pnum, MAXDEPTH - old(depth), ds);
      }
      if tree { DirDone(old(dirs), old(linkmap), t, inum, ds); }
      ds := ds + [inum];
      depth := depth - 1;
    }

    /** The loop of `ckdir`. */
    method Entries(inum: nat, pnum: nat, name: string, ghost t: Tree, ghost tree: bool)
      returns (ok: bool, ghost ds: seq<nat>)
      requires 1 <= depth <= MAXDEPTH && (forall n :: 0 <= n < |linkmap| ==> linkmap[n] >= -1) && inum in dirs
      requires tree ==> At(dirs, linkmap, t, inum, pnum, name, depth - 1)
      modifies this`dirs, this`linkmap, this`depth
      ensures ok ==> depth == old(depth) && SameMarks(old(linkmap))
      ensures ok ==> dirs.Keys == old(dirs).Keys && forall d :: d in dirs ==> |dirs[d]| == |old(dirs)[d]|
      ensures tree ==>
                && (PathsFit(old(dirs), t, old(linkmap)) ==> ok)
                && (ok ==> Progress(old(dirs), old(linkmap), t, inum, |old(dirs)[inum]|, ds))
      ensures old(ShortNames(dirs)) && |name| <= 1 + 7 * (old(depth) - 1) ==> ok && ShortNames(dirs)
      ensures ok && old(Parent(dirs, Used(linkmap), pnum, inum)) ==>
                Tending(old(dirs), dirs, old(Used(linkmap)), inum, pnum, MAXDEPTH - old(depth) + 1, ds,
                        |old(dirs)[inum]|)
      decreases MAXDEPTH - depth, 4
    {
      hide Counts, Naming, Under, NoDup, ParentOk, Seen, EntryOk, AllFit, DirFits, PathsFit, Path, IsTree;
      hide Tended, Parent, Sound, Used, ReachesBy, Tending;
      ghost var used, proper := Used(linkmap), Parent(dirs, Used(linkmap), pnum, inum);
      if proper { TendingNone(dirs, used, inum, pnum, MAXDEPTH - depth + 1); }
      if tree { SeenNone(dirs, t, linkmap, inum); }
      ok, ds := true, [];
      var nentries := |dirs[inum]|;
      for j := 0 to nentries
        invariant ok && depth == old(depth) && SameMarks(old(linkmap)) && dirs.Keys == old(dirs).Keys
        invariant forall d :: d in dirs ==> |dirs[d]| == |old(dirs)[d]|
        invariant old(ShortNames(dirs)) && |name| <= 1 + 7 * (depth - 1) ==> ShortNames(dirs)
        invariant tree ==> Progress(old(dirs), old(linkmap), t, inum, j, ds)
        invariant proper ==> Tending(old(dirs), dirs, used, inum, pnum, MAXDEPTH - depth + 1, ds, j)
      {
        ghost var was, kids := dirs, ds;
        SameUsed(old(linkmap), linkmap);
        if proper { TendingParent(old(dirs), dirs, used, inum, pnum, MAXDEPTH - depth + 1, ds, j); }
        ok, ds := CheckEntry(inum, pnum, name, j, t, tree, old(dirs), old(linkmap), ds);
        if !ok { return; }
        if proper {
          TendingStep(old(dirs), was, dirs, used, inum, pnum, MAXDEPTH - depth + 1, kids, ds, j);
        }
      }
    }

    /** The arguments of `ckdir` at a directory of a tree. */
    ghost predicate At(dirs0: Dirs, links0: seq<int>, t: Tree, d: nat, p: nat, name: string, depth: int) {
      IsTree(dirs0, t, links0) && d in dirs0 && p == t.par[d] && name == Path(dirs0, t, d) && depth == t.level[d]
    }

    /** What `ckdir` did in a tree: it saw each directory at or below d once. */
    ghost predicate Visited(dirs0: Dirs, links0: seq<int>, t: Tree, d: nat, ds: seq<nat>)
      requires IsTree(dirs0, t, links0)
      reads this
    {
      && Counted(dirs0, links0, ds) && NoDup(ds) && AllFit(dirs0, t, links0, ds)
      && forall x :: x in ds <==> x in dirs0 && Under(dirs0, t, d, x)
    }

    /** The first j entries of directory d are done. */
    ghost predicate Progress(dirs0: Dirs, links0: seq<int>, t: Tree, d: nat, j: nat, kids: seq<nat>)
      reads this
    {
      && IsTree(dirs0, t, links0) && d in dirs0 && j <= |dirs0[d]| && Seen(dirs0, t, links0, d, j, kids)
      && AllFit(dirs0, t, links0, kids) && DirFits(dirs0, t, links0, d, j)
      && dirs == dirs0 && |linkmap| == |links0|
      && (forall n: nat :: n < |links0| ==> linkmap[n] == links0[n] + Counts(dirs0, kids, n) + Naming(dirs0[d][..j], n))
    }

    lemma DirDone(dirs0: Dirs, links0: seq<int>, t: Tree, d: nat, kids: seq<nat>)
      requires d in dirs0 && Progress(dirs0, links0, t, d, |dirs0[d]|, kids)
      ensures Visited(dirs0, links0, t, d, kids + [d])
    {
      SeenAll(dirs0, t, links0, d, kids);
      assert dirs0[d][..|dirs0[d]|] == dirs0[d];
      assert (kids + [d])[..|kids|] == kids;
    }

    lemma OneEntry(dirs0: Dirs, d: nat, j: nat)
      requires d in dirs0 && j < |dirs0[d]|
      ensures forall n: nat ::
        Naming(dirs0[d][..j + 1], n) == Naming(dirs0[d][..j], n) + if dirs0[d][j].ino == n && n != 0 then 1 else 0
    {
      assert dirs0[d][..j + 1][..j] == dirs0[d][..j];
    }

    lemma KidSeen(dirs0: Dirs, t: Tree, links0: seq<int>, d: nat, j: nat, kids: seq<nat>, c: nat, more: seq<nat>)
      requires IsTree(dirs0, t, links0) && d in dirs0 && j < |dirs0[d]| && Seen(dirs0, t, links0, d, j, kids)
      requires dirs0[d][j] == Entry(dirs0[d][j].name, c) && dirs0[d][j].name.Other? && c != 0 && c in dirs0
      requires NoDup(more) && (forall x :: x in more <==> x in dirs0 && Under(dirs0, t, c, x))
      ensures Seen(dirs0, t, links0, d, j + 1, kids + more)
      ensures AllFit(dirs0, t, links0, kids) && AllFit(dirs0, t, links0, more) ==> AllFit(dirs0, t, links0, kids + more)
      ensures forall n: nat :: Counts(dirs0, kids + more, n) == Counts(dirs0, kids, n) + Counts(dirs0, more, n)
    {
      SeenMore(dirs0, t, links0, d, j, kids, c, more);
      forall n: nat ensures Counts(dirs0, kids + more, n) == Counts(dirs0, kids, n) + Counts(dirs0, more, n) {
        CountsAppend(dirs0, kids, more, n);
      }
    }

    /** Entry j of directory d is counted, but not followed yet. */
    ghost predicate Entered(dirs0: Dirs, links0: seq<int>, t: Tree, d: nat, j: nat, kids: seq<nat>)
      reads this`dirs, this`linkmap
    {
      && IsTree(dirs0, t, links0) && d in dirs0 && j < |dirs0[d]| && dirs0[d][j].ino != 0
      && Seen(dirs0, t, links0, d, j, kids)
      && AllFit(dirs0, t, links0, kids) && DirFits(dirs0, t, links0, d, j)
      && dirs == dirs0 && |linkmap| == |links0|
      && (forall n: nat :: n < |links0| ==>
        linkmap[n] == links0[n] + Counts(dirs0, kids, n) + Naming(dirs0[d][..j + 1], n))
    }

    /** The body of the loop of `ckdir`. */
    method CheckEntry(inum: nat, pnum: nat, name: string, j: nat, ghost t: Tree, ghost tree: bool, ghost dirs0: Dirs,
                      ghost links0: seq<int>, ghost kids: seq<nat>) returns (ok: bool, ghost ds: seq<nat>)
      requires 1 <= depth <= MAXDEPTH && (forall n :: 0 <= n < |linkmap| ==> linkmap[n] >= -1) && SameMarks(links0)
      requires inum in dirs && j < |dirs[inum]|
      requires tree ==> Progress(dirs0, links0, t, inum, j, kids) && At(dirs0, links0, t, inum, pnum, name, depth - 1)
      modifies this`dirs, this`linkmap, this`depth
      ensures ok ==> depth == old(depth) && SameMarks(links0) && (forall n :: 0 <= n < |linkmap| ==> linkmap[n] >= -1)
      ensures ok ==> dirs.Keys == old(dirs).Keys && forall d :: d in dirs ==> |dirs[d]| == |old(dirs)[d]|
      ensures tree ==>
                && (PathsFit(dirs0, t, links0) ==> ok)
                && (ok ==> Progress(dirs0, links0, t, inum, j + 1, ds))
      ensures old(ShortNames(dirs)) && |name| <= 1 + 7 * (old(depth) - 1) ==> ok && ShortNames(dirs)
      ensures kids <= ds
      ensures var r := old(Repaired(dirs[inum][j], inum, pnum, Used(linkmap)));
              ok && (r.ino in {0, pnum, inum} || old(depth) == MAXDEPTH || r.ino !in old(dirs)) ==>
                Checked(old(dirs), old(linkmap), dirs, linkmap, inum, pnum, j)
      ensures ok && old(Parent(dirs, Used(linkmap), pnum, inum)) ==>
                && Tended(old(dirs), dirs, old(Used(linkmap)), ds[|kids|..], inum)
                && Sound(dirs, old(Used(linkmap)), inum, j)
                && ReachesBy(old(dirs), old(Used(linkmap)), inum, pnum, MAXDEPTH - old(depth) + 1, ds[|kids|..], j)
      decreases MAXDEPTH - depth, 3
    {
      hide Counts, Naming, Under, NoDup, ParentOk, EntryOk, Seen, AllFit, Path, PathsFit, DirFits, IsTree;
      hide Tended, Parent, Sound, ShortNames, Used, Reaches, ReachesBy, AllMended;
      ghost var was, links, used := dirs, linkmap, Used(linkmap);
      ghost var proper, short := Parent(dirs, used, pnum, inum), ShortNames(dirs);
      if proper { RepairTended(dirs, used, inum, pnum, j); }
      if short { ShortStays(dirs, inum, j, pnum, used); }
      if tree { NothingToRepair(dirs0, t, links0, linkmap, inum, j, pnum, kids); }
      var e := Mend(inum, pnum, j);
      ghost var mid := dirs;
      SameUsed(links, linkmap);
      if e.ino == 0 {
        assert kids[|kids|..] == [];
        if proper {
          ZeroFree(links);
          TendedNone(mid, used, inum);
          EntryFollowed(was, mid, mid, used, inum, pnum, MAXDEPTH - depth + 1, j, []);
        }
        return true, kids;
      }
      ok, ds := Follow(inum, pnum, name, j, e, t, tree, dirs0, links0, kids);
      if ok && proper {
        EntryFollowed(was, mid, dirs, used, inum, pnum, MAXDEPTH - depth + 1, j, ds[|kids|..]);
      }
    }

    /** In a tree there is nothing to repair. */
    lemma NothingToRepair(dirs0: Dirs, t: Tree, links0: seq<int>, links: seq<int>, d: nat, j: nat, p: nat,
                          kids: seq<nat>)
      requires IsTree(dirs0, t, links0) && d in dirs0 && j < |dirs0[d]| && p == t.par[d]
      requires |links| == |links0| && forall n :: 0 <= n < |links| ==> (links[n] == -1 <==> links0[n] == -1)
      requires Seen(dirs0, t, links0, d, j, kids) && DirFits(dirs0, t, links0, d, j)
      ensures var e := dirs0[d][j];
              && Repaired(e, d, p, Used(links)) == e && (e.ino != 0 <==> e.ino in Used(links))
              && dirs0[d := dirs0[d][j := e]] == dirs0
              && (e.ino == 0 ==> Seen(dirs0, t, links0, d, j + 1, kids) && DirFits(dirs0, t, links0, d, j + 1))
      ensures forall n: nat ::
        Naming(dirs0[d][..j + 1], n) == Naming(dirs0[d][..j], n) + if dirs0[d][j].ino == n && n != 0 then 1 else 0
    {
      hide Seen, Naming;
      assert EntryOk(dirs0, t, links0, d, j);
      NoChange(dirs0, d, j);
      OneEntry(dirs0, d, j);
      if dirs0[d][j].ino == 0 { SeenSame(dirs0, t, links0, d, j, kids); }
    }

    /** The loop body of `ckdir` up to the descent. */
    method Mend(inum: nat, pnum: nat, j: nat) returns (e: Entry)
      requires inum in dirs && j < |dirs[inum]|
      modifies this`dirs, this`linkmap
      ensures e == old(Repaired(dirs[inum][j], inum, pnum, Used(linkmap)))
      ensures Checked(old(dirs), old(linkmap), dirs, linkmap, inum, pnum, j) && |linkmap| == |old(linkmap)|
      ensures forall n :: 0 <= n < |linkmap| ==>
        old(linkmap)[n] <= linkmap[n] && (old(linkmap)[n] >= -1 ==> (linkmap[n] == -1 <==> old(linkmap)[n] == -1))
    {
      NoChange(dirs, inum, j);
      e := dirs[inum][j];
      if e.ino == 0 {
        return;
      }
      if e.ino < ROOTINODE || e.ino >= |linkmap| || linkmap[e.ino] == -1 {
        e := NoEntry();
        dirs := dirs[inum := dirs[inum][j := e]];
        return;
      }
      ghost var used := Used(linkmap);
      linkmap := linkmap[e.ino := linkmap[e.ino] + 1];
      e := Repair(inum, pnum, j, e);
    }

    /** The repairs of an entry that names an inode in use. */
    method Repair(inum: nat, pnum: nat, j: nat, e0: Entry) returns (e: Entry)
      requires inum in dirs && j < |dirs[inum]| && dirs[inum][j] == e0 && e0.ino != 0
      modifies this`dirs
      ensures forall used: set<nat> :: e0.ino in used ==> e == Repaired(e0, inum, pnum, used)
      ensures dirs == old(dirs)[inum := old(dirs)[inum][j := e]]
    {
      e := e0;
      NoChange(dirs, inum, j);
      if e.name.Other? {
        var name := Cleaned(e.name.name);
        if name != e.name.name {
          e := e.(name := Other(name));
          dirs := dirs[inum := dirs[inum][j := e]];
        }
      }
      if e.name == Dot && e.ino != inum {
        e := e.(ino := inum);
        dirs := dirs[inum := dirs[inum][j := e]];
      }
      if e.name == DotDot && e.ino != pnum {
        e := e.(ino := pnum);
        dirs := dirs[inum := dirs[inum][j := e]];
      }
    }

    /** The search for slashes in a name. */
    method Cleaned(name0: string) returns (name: string)
      ensures name == NoSlashes(name0)
    {
      name := name0;
      for c := 0 to |name|
        invariant |name| == |name0|
        invariant forall i :: 0 <= i < |name| ==> name[i] == if i < c && name0[i] == '/' then 'X' else name0[i]
      {
        if name[c] == '/' {
          name := name[c := 'X'];
        }
      }
    }

    /** The end of the loop: the path is made in a buffer of 150 characters, whatever the
        entry names, and followed if that is a directory. */
    method Follow(inum: nat, pnum: nat, name: string, ghost j: nat, e: Entry, ghost t: Tree, ghost tree: bool,
                  ghost dirs0: Dirs, ghost links0: seq<int>, ghost kids: seq<nat>)
      returns (ok: bool, ghost ds: seq<nat>)
      requires 1 <= depth <= MAXDEPTH && (forall n :: 0 <= n < |linkmap| ==> linkmap[n] >= -1) && SameMarks(links0)
      requires tree ==> Entered(dirs0, links0, t, inum, j, kids) && e == dirs0[inum][j]
      requires tree ==> At(dirs0, links0, t, inum, pnum, name, depth - 1)
      modifies this`dirs, this`linkmap, this`depth
      ensures ok ==> depth == old(depth) && SameMarks(links0) && (forall n :: 0 <= n < |linkmap| ==> linkmap[n] >= -1)
      ensures ok ==> dirs.Keys == old(dirs).Keys && forall d :: d in dirs ==> |dirs[d]| == |old(dirs)[d]|
      ensures tree ==>
                && (PathsFit(dirs0, t, links0) ==> ok)
                && (ok ==> Progress(dirs0, links0, t, inum, j + 1, ds))
      ensures old(ShortNames(dirs)) && |Text(e.name)| <= 6 && |name| <= 1 + 7 * (old(depth) - 1) ==>
                && ok
                && ShortNames(dirs)
      ensures kids <= ds
      ensures ok && (e.ino in {pnum, inum} || old(depth) == MAXDEPTH || e.ino !in old(dirs)) ==>
                dirs == old(dirs) && linkmap == old(linkmap)
      ensures ok && (e.ino in {pnum, inum} || old(Parent(dirs, Used(linkmap), inum, e.ino))) ==>
                Tended(old(dirs), dirs, old(Used(linkmap)), ds[|kids|..], inum)
      ensures ok && e.ino !in {pnum, inum} && old(depth) < MAXDEPTH && old(Parent(dirs, Used(linkmap), inum, e.ino)) ==>
                Reaches(old(dirs), old(Used(linkmap)), e.ino, inum, MAXDEPTH - old(depth), ds[|kids|..])
      decreases MAXDEPTH - depth, 2
    {
      hide Counts, Naming, Under, NoDup, ParentOk, Seen, IsTree, AllFit, Path, PathsFit, DirFits;
      hide Tended, Parent, Reaches;
      ghost var was, used, proper := dirs, Used(linkmap), Parent(dirs, Used(linkmap), inum, e.ino);
      TendedNone(dirs, used, inum);
      assert kids[|kids|..] == [];
      ok, ds := true, kids;
      if tree { Goes(dirs0, t, links0, inum, j, kids); }
      if e.ino != pnum && e.ino != inum && depth < MAXDEPTH {
        if !Fits(name, Text(e.name)) {
          return false, ds;
        }
        var ename := name + Text(e.name) + "/";
        if tree {
          SameTree(dirs0, t, links0, linkmap);
          SameFit(dirs0, t, links0, linkmap);
        }
        ghost var more;
        ok, more := Ckdir(e.ino, inum, ename, t);
        if !ok { return; }
        if tree && e.ino in dirs0 {
          KidSeen(dirs0, t, links0, inum, j, kids, e.ino, more);
        }
        assert kids + [] == kids && (kids + more)[|kids|..] == more;
        ds := ds + more;
        if proper { TendedBelow(was, dirs, used, more, e.ino, inum); }
      }
    }

    /** Which entries of a tree are followed. */
    lemma Goes(dirs0: Dirs, t: Tree, links0: seq<int>, d: nat, j: nat, kids: seq<nat>)
      requires IsTree(dirs0, t, links0) && d in dirs0 && j < |dirs0[d]| && dirs0[d][j].ino != 0
      requires Seen(dirs0, t, links0, d, j, kids) && DirFits(dirs0, t, links0, d, j)
      ensures var c, name := dirs0[d][j].ino, dirs0[d][j].name;
              && (if name.Other? && c in dirs0
                  then c != d && c != t.par[d] && t.par[c] == d && t.level[c] == t.level[d] + 1 < MAXDEPTH
                       && Path(dirs0, t, c) == Path(dirs0, t, d) + Text(name) + "/"
                  else (c !in dirs0 || c == d || c == t.par[d]) && Seen(dirs0, t, links0, d, j + 1, kids))
              && (c != d && c != t.par[d] ==> name.Other?)
              && (name.Other? ==> c != d && c != t.par[d])
              && (if name.Other? && t.level[d] + 1 < MAXDEPTH && !Fits(Path(dirs0, t, d), Text(name))
                  then !PathsFit(dirs0, t, links0)
                  else DirFits(dirs0, t, links0, d, j + 1))
    {
      hide Seen, Under;
      assert EntryOk(dirs0, t, links0, d, j) && ParentOk(dirs0, t, d);
      if dirs0[d][j].name.Other? && dirs0[d][j].ino in dirs0 {
        ChildGoes(dirs0, t, links0, d, j);
      } else {
        SeenSame(dirs0, t, links0, d, j, kids);
      }
      assert DirFits(dirs0, t, links0, d, |dirs0[d]|) ==> EntryFits(dirs0, t, d, j);
    }

    /** What fits does not depend on the counts. */
    lemma SameFit(dirs0: Dirs, t: Tree, links: seq<int>, more: seq<int>)
      requires IsTree(dirs0, t, links) && IsTree(dirs0, t, more)
      ensures PathsFit(dirs0, t, links) == PathsFit(dirs0, t, more)
      ensures forall ds :: AllFit(dirs0, t, links, ds) == AllFit(dirs0, t, more, ds)
    {
      hide IsTree, EntryFits;
      assert forall d, n: nat :: d in dirs0 && n <= |dirs0[d]| ==>
        DirFits(dirs0, t, links, d, n) == DirFits(dirs0, t, more, d, n);
    }

    /** `pass4`. In a tree every inode gets the number of directory entries that name it,
        and the root one more, exactly when no path is too long for its buffer. On other
        graphs none is if names have at most 6 characters. If none is, every directory that
        a chain of at most 20 leads to is sound afterwards, and only repairs were made. */
    method Pass4(ghost t: Tree) returns (ok: bool, ghost ds: seq<nat>)
      requires |linkmap| > ROOTINODE && linkmap[ROOTINODE] != -1
      requires forall n :: 0 <= n < |linkmap| ==> linkmap[n] == 0 || linkmap[n] == -1
      modifies this`dirs, this`linkmap, this`depth
      ensures ok ==> depth == 0 && |linkmap| == |old(linkmap)|
      ensures ok ==> forall n :: 0 <= n < |linkmap| ==>
        linkmap[n] >= -1 && (linkmap[n] == -1 <==> old(linkmap)[n] == -1)
      ensures old(ShortNames(dirs)) ==> ok
      ensures ok ==> Tended(old(dirs), dirs, old(Used(linkmap)), ds, ROOTINODE)
      ensures ok && ROOTINODE in dirs ==> ROOTINODE in ds
      ensures ok ==> Reaches(old(dirs), old(Used(linkmap)), ROOTINODE, ROOTINODE, MAXDEPTH, ds)
      ensures IsTree(old(dirs), t, old(linkmap)) ==> (ok <==> PathsFit(old(dirs), t, old(linkmap)))
      ensures IsTree(old(dirs), t, old(linkmap)) && ok ==>
                && dirs == old(dirs) && NoDup(ds) && (forall x :: x in ds <==> x in dirs)
                && (forall n: nat :: n < |linkmap| && linkmap[n] != -1 ==>
                      linkmap[n] == Counts(dirs, ds, n) + if n == ROOTINODE then 1 else 0)
    {
      hide DirFits, Tended, Reaches;
      depth := 0;
      linkmap := linkmap[ROOTINODE := 1];
      SameUsed(old(linkmap), linkmap);
      assert Parent(dirs, Used(linkmap), ROOTINODE, ROOTINODE);
      ghost var links := linkmap;
      ghost var tree := IsTree(dirs, t, old(linkmap));
      if tree {
        SameTree(dirs, t, old(linkmap), linkmap);
        assert ParentOk(dirs, t, ROOTINODE);
        forall x | x in dirs ensures Under(dirs, t, ROOTINODE, x) { AllUnderRoot(dirs, t, linkmap, x); }
        SameFit(dirs, t, old(linkmap), linkmap);
      }
      ok, ds := Ckdir(ROOTINODE, ROOTINODE, "/", t);
      if !ok { return; }
      if depth != 0 {
        assert false;
      }
    }

    /** `mkentry`: an entry for a detached inode, in the first empty slot of the root. */
    method Mkentry(inum: nat)
      modifies this`dirs
      ensures dirs == WithEntry(old(dirs), inum)
    {
      if ROOTINODE !in dirs {
        return;
      }
      for d := 0 to |dirs[ROOTINODE]|
        invariant dirs == old(dirs) && forall k :: 0 <= k < d ==> dirs[ROOTINODE][k] != NoEntry()
      {
        if dirs[ROOTINODE][d] == NoEntry() {
          FirstEmptyIs(dirs[ROOTINODE], 0, d);
          dirs := dirs[ROOTINODE := dirs[ROOTINODE][d := LostEntry(inum)]];
          return;
        }
      }
      NoneEmpty(dirs[ROOTINODE], 0);
    }

    /** `pass5`: the link counts of all inodes that entries name become the numbers of
        those entries; of the detached ones, the useless are freed and counted as free, and
        the others are entered in the root directory as far as it has empty slots. */
    method Pass5()
      requires ROOTINODE < |inodes| <= |linkmap|
      requires forall n :: ROOTINODE <= n < |inodes| ==> linkmap[n] >= -1 && (inodes[n].used <==> linkmap[n] != -1)
      modifies this`inodes, this`dirs, this`tinode
      ensures |inodes| == |old(inodes)| && dirs.Keys == old(dirs).Keys
      ensures forall n :: ROOTINODE <= n < |inodes| ==>
        inodes[n] == if linkmap[n] > 0 then old(inodes)[n].(nlink := linkmap[n])
                     else if linkmap[n] == -1 then old(inodes)[n]
                     else if old(inodes)[n].Useless() then old(inodes)[n].(used := false, nlink := 0)
                     else old(inodes)[n].(nlink := 1)
      ensures dirs == WithEntries(old(dirs), Detached(old(inodes), linkmap, |inodes|, false))
      ensures tinode == old(tinode) + |Detached(old(inodes), linkmap, |inodes|, true)|
    {
      hide Detached, WithEntries, WithEntry;
      NobodyYet(dirs, inodes, linkmap);
      for n := ROOTINODE to |inodes|
        invariant |inodes| == |old(inodes)| && dirs.Keys == old(dirs).Keys
        invariant forall k :: n <= k < |inodes| ==> inodes[k] == old(inodes)[k]
        invariant forall k :: ROOTINODE <= k < n ==>
          inodes[k] == if linkmap[k] > 0 then old(inodes)[k].(nlink := linkmap[k])
                       else if linkmap[k] == -1 then old(inodes)[k]
                       else if old(inodes)[k].Useless() then old(inodes)[k].(used := false, nlink := 0)
                       else old(inodes)[k].(nlink := 1)
        invariant dirs == WithEntries(old(dirs), Detached(old(inodes), linkmap, n, false))
        invariant tinode == old(tinode) + |Detached(old(inodes), linkmap, n, true)|
      {
        DetachedMore(old(inodes), linkmap, n, false);
        DetachedMore(old(inodes), linkmap, n, true);
        if !inodes[n].used {
          if linkmap[n] != -1 {
            assert false;
          }
          continue;
        }
        if linkmap[n] == -1 {
          assert false;
        }
        if linkmap[n] > 0 && inodes[n].nlink != linkmap[n] {
          inodes := inodes[n := inodes[n].(nlink := linkmap[n])];
        }
        if linkmap[n] == 0 {
          if inodes[n].Useless() {
            inodes := inodes[n := inodes[n].(used := false, nlink := 0)];
            tinode := tinode + 1;
          } else {
            inodes := inodes[n := inodes[n].(nlink := 1)];
            WithOneMore(old(dirs), Detached(old(inodes), linkmap, n, false), n);
            Mkentry(n);
          }
        }
      }
    }

    lemma NobodyYet(dirs: Dirs, inodes: seq<Inode>, links: seq<int>)
      requires ROOTINODE <= |inodes| <= |links|
      ensures forall u :: Detached(inodes, links, ROOTINODE, u) == []
      ensures WithEntries(dirs, []) == dirs
    {
    }

    /** Passes 4 and 5 on a tree: exactly when its paths fit, the link count of every inode
        reached becomes the number of entries that name it, and one more for the root. */
    method Check(ghost t: Tree) returns (ok: bool, ghost ds: seq<nat>)
      requires |linkmap| > ROOTINODE && linkmap[ROOTINODE] != -1 && IsTree(dirs, t, linkmap)
      requires forall n :: 0 <= n < |linkmap| ==> linkmap[n] == 0 || linkmap[n] == -1
      requires ROOTINODE < |inodes| <= |linkmap|
      requires forall n :: ROOTINODE <= n < |inodes| ==> (inodes[n].used <==> linkmap[n] != -1)
      modifies this
      ensures ok <==> PathsFit(old(dirs), t, old(linkmap))
      ensures ok ==> NoDup(ds) && (forall x :: x in ds <==> x in old(dirs)) && |inodes| == |old(inodes)|
      ensures ok ==> forall n: nat ::
        ROOTINODE <= n < |inodes| && old(inodes)[n].used && Counts(old(dirs), ds, n) > 0 ==>
        inodes[n] == old(inodes)[n].(nlink := Counts(old(dirs), ds, n) + if n == ROOTINODE then 1 else 0)
    {
      hide IsTree, Counts, NoDup, PathsFit;
      ok, ds := Pass4(t);
      if ok { Pass5(); }
    }
  }

  // Directories nested m deep, each in the one before it under a name of w characters.

  function Above(i: nat): nat {
    if i <= ROOTINODE then i else i - 1
  }

  function ChainDir(m: nat, w: nat, i: nat): (es: seq<Entry>)
    ensures |es| == if i < m then 3 else 2
  {
    [Entry(Dot, i), Entry(DotDot, Above(i))] + if i < m then [Entry(Other(seq(w, _ => 'a')), i + 1)] else []
  }

  function ChainDirs(m: nat, w: nat): Dirs {
    map i | i in Upto(m + 1) - {0} :: ChainDir(m, w, i)
  }

  function ChainTree(m: nat): Tree {
    var ds := Upto(m + 1) - {0};
    Tree(map i | i in ds :: Above(i), map i: nat | i in ds :: i - 1, map i | i in ds :: 2)
  }

  lemma ChainEntry(m: nat, w: nat, d: nat, j: nat)
    requires 1 <= d <= m <= MAXDEPTH && j < |ChainDir(m, w, d)|
    ensures EntryOk(ChainDirs(m, w), ChainTree(m), seq(m + 1, _ => 0), d, j)
  {
    hide Upto;
    var e := ChainDir(m, w, d)[j];
    assert e == if j == 0 then Entry(Dot, d) else if j == 1 then Entry(DotDot, Above(d))
      else Entry(Other(seq(w, _ => 'a')), d + 1);
  }

  lemma ChainParent(m: nat, w: nat, d: nat)
    requires 1 <= d <= m <= MAXDEPTH
    ensures d in ChainDirs(m, w) && d in ChainTree(m).par && d in ChainTree(m).level
    ensures ParentOk(ChainDirs(m, w), ChainTree(m), d)
  {
    hide Upto, ChainDir;
    ChainKeys(m, w);
    if d > 1 {
      ThirdEntry(m, w, d - 1);
    }
  }

  lemma ChainKeys(m: nat, w: nat)
    ensures forall d: nat :: d in ChainDirs(m, w) <==> 1 <= d <= m
    ensures ChainDirs(m, w).Keys <= ChainTree(m).par.Keys && ChainDirs(m, w).Keys <= ChainTree(m).level.Keys
    ensures forall d: nat :: 1 <= d <= m ==> ChainDirs(m, w)[d] == ChainDir(m, w, d)
  {
    hide ChainDir;
    forall d: nat ensures d in ChainDirs(m, w) <==> 1 <= d <= m {
      assert d in Upto(m + 1) <==> d < m + 1;
    }
  }

  lemma ChainIsTree(m: nat, w: nat)
    requires 1 <= m <= MAXDEPTH
    ensures IsTree(ChainDirs(m, w), ChainTree(m), seq(m + 1, _ => 0))
  {
    hide ChainDirs, ChainTree, ChainDir, EntryOk, ParentOk;
    var dirs, t, links := ChainDirs(m, w), ChainTree(m), seq(m + 1, _ => 0);
    ChainKeys(m, w);
    forall d | d in dirs ensures ParentOk(dirs, t, d) { ChainParent(m, w, d); }
    forall d, j: nat | d in dirs && j < |dirs[d]| ensures EntryOk(dirs, t, links, d, j) { ChainEntry(m, w, d, j); }
  }

  lemma ChainStep(m: nat, w: nat, i: nat)
    requires 1 < i <= m <= MAXDEPTH
    ensures IsTree(ChainDirs(m, w), ChainTree(m), seq(m + 1, _ => 0))
    ensures Path(ChainDirs(m, w), ChainTree(m), i) ==
      Path(ChainDirs(m, w), ChainTree(m), i - 1) + seq(w, _ => 'a') + "/"
  {
    hide Upto, EntryOk, ChainDir;
    var dirs, t := ChainDirs(m, w), ChainTree(m);
    ChainIsTree(m, w);
    assert t.par[i] == i - 1 && t.slot[i] == 2 && dirs[i - 1] == ChainDir(m, w, i - 1);
    ThirdEntry(m, w, i - 1);
  }

  lemma ThirdEntry(m: nat, w: nat, i: nat)
    requires i < m
    ensures ChainDir(m, w, i)[2] == Entry(Other(seq(w, _ => 'a')), i + 1)
    ensures ChainDir(m, w, i)[0].name == Dot && ChainDir(m, w, i)[1].name == DotDot
  {
  }

  /** The length of a path of d names behind the root. */
  function PathLength(w: nat, d: nat): nat {
    if d == 0 then 1 else PathLength(w, d - 1) + w + 1
  }

  lemma {:induction false} PathLengthIs(w: nat, d: nat)
    ensures PathLength(w, d) == 1 + d * (w + 1)
    ensures forall c: nat :: c <= d ==> PathLength(w, c) <= PathLength(w, d)
  {
    if d > 0 {
      PathLengthIs(w, d - 1);
      assert d * (w + 1) == (d - 1) * (w + 1) + (w + 1);
    }
  }

  lemma {:induction false} ChainPath(m: nat, w: nat, i: nat)
    requires 1 <= i <= m <= MAXDEPTH
    ensures IsTree(ChainDirs(m, w), ChainTree(m), seq(m + 1, _ => 0))
    ensures |Path(ChainDirs(m, w), ChainTree(m), i)| == PathLength(w, i - 1)
  {
    hide Upto, IsTree, ChainDir;
    ChainIsTree(m, w);
    if i > 1 {
      ChainPath(m, w, i - 1);
      ChainStep(m, w, i);
    } else {
      ChainRoot(m, w);
    }
  }

  lemma ChainRoot(m: nat, w: nat)
    requires 1 <= m <= MAXDEPTH
    ensures IsTree(ChainDirs(m, w), ChainTree(m), seq(m + 1, _ => 0))
    ensures Path(ChainDirs(m, w), ChainTree(m), ROOTINODE) == "/"
  {
    ChainIsTree(m, w);
  }

  /** Well within 20 levels the buffer may be too small: it is for 11 directories one in
      the other under names of 14 characters, and for 12 under names of 13. */
  lemma ChainFits(m: nat, w: nat)
    requires 1 <= m <= MAXDEPTH
    ensures IsTree(ChainDirs(m, w), ChainTree(m), seq(m + 1, _ => 0))
    ensures PathsFit(ChainDirs(m, w), ChainTree(m), seq(m + 1, _ => 0)) <==>
            m == 1 || (w < NAME_MAX && 1 + (m - 1) * (w + 1) < ENAME)
  {
    hide IsTree, DirFits, Path, ChainDir, ChainDirs, ChainTree, PathLength, ParentOk, EntryOk;
    var dirs, t, links := ChainDirs(m, w), ChainTree(m), seq(m + 1, _ => 0);
    ChainIsTree(m, w);
    ChainKeys(m, w);
    PathLengthIs(w, m - 1);
    forall d | d in dirs
      ensures DirFits(dirs, t, links, d, |dirs[d]|) <==> d == m || (w < NAME_MAX && PathLength(w, d) < ENAME)
    {
      ChainDirFits(m, w, d);
    }
    if m > 1 { assert m - 1 in dirs; }
  }

  lemma ChainDirFits(m: nat, w: nat, d: nat)
    requires 1 <= d <= m <= MAXDEPTH
    ensures IsTree(ChainDirs(m, w), ChainTree(m), seq(m + 1, _ => 0))
    ensures d in ChainDirs(m, w) && ChainDirs(m, w)[d] == ChainDir(m, w, d)
    ensures DirFits(ChainDirs(m, w), ChainTree(m), seq(m + 1, _ => 0), d, |ChainDir(m, w, d)|) <==>
            d == m || (w < NAME_MAX && PathLength(w, d) < ENAME)
  {
    hide ChainDirs, Path, Upto, EntryOk, ParentOk, ChainDir, IsTree;
    var dirs, t, links, n := ChainDirs(m, w), ChainTree(m), seq(m + 1, _ => 0), |ChainDir(m, w, d)|;
    ChainIsTree(m, w);
    ChainKeys(m, w);
    ChainPath(m, w, d);
    TreeShape(dirs, t, links);
    if d < m {
      ThirdEntry(m, w, d);
      assert DirFits(dirs, t, links, d, n) <==> EntryFits(dirs, t, d, 2);
    } else {
      TwoEntries(m, w);
    }
  }

  lemma TreeShape(dirs: Dirs, t: Tree, links: seq<int>)
    requires IsTree(dirs, t, links)
    ensures dirs.Keys <= t.par.Keys && dirs.Keys <= t.level.Keys && forall e :: e in dirs ==> ParentOk(dirs, t, e)
  {
  }

  lemma TwoEntries(m: nat, w: nat)
    ensures ChainDir(m, w, m)[0].name == Dot && ChainDir(m, w, m)[1].name == DotDot
  {
  }

  // The root directory that mkfs writes.

  /** The name at byte p of a block, up to the first NUL or 14 characters. */
  function NameAt(b: Block, p: nat, n: nat): string
    requires p + n <= 512
    decreases n
  {
    if n == 0 || b[p] == 0 then "" else [b[p] as char] + NameAt(b, p + 1, n - 1)
  }

  function NameOf(s: string): Name {
    if s == "." then Dot else if s == ".." then DotDot else Other(s)
  }

  /** Entry j of a block of a directory, as `dirread` finds it. */
  function EntryAt(b: Block, j: nat): Entry
    requires j < 32
  {
    Entry(NameOf(NameAt(b, 16 * j + 2, 14)), Word(b, 8 * j))
  }

  function EntriesOf(b: Block, n: nat): (es: seq<Entry>)
    requires n <= 32
    ensures |es| == n
  {
    seq(n, j requires 0 <= j < n => EntryAt(b, j))
  }

  lemma RootBytes()
    ensures var b := RootEntries(); b[2] == 0x2E && b[3] == 0 && b[18] == 0x2E && b[19] == 0x2E && b[20] == 0
    ensures Word(RootEntries(), 0) == Word(RootEntries(), 8) == ROOTINODE
  {
    var w := [ROOTINODE, 0x2E] + Zeros(6) + [ROOTINODE, 0x2E2E] + Zeros(6);
    WordsAfterPut(ZeroBlock(), 0, w);
    assert w[1] == 0x2E && w[8] == ROOTINODE && w[9] == 0x2E2E && w[10] == 0;
  }

  lemma RootDir()
    ensures EntriesOf(RootEntries(), 2) == [Entry(Dot, ROOTINODE), Entry(DotDot, ROOTINODE)]
  {
    hide RootEntries, Word;
    var b := RootEntries();
    RootBytes();
    assert NameAt(b, 2, 14) == "." by { assert NameAt(b, 3, 13) == ""; }
    assert NameAt(b, 18, 14) == ".." by { assert NameAt(b, 20, 12) == ""; assert NameAt(b, 19, 13) == "."; }
    hide NameAt;
    assert EntryAt(b, 0) == Entry(Dot, ROOTINODE);
    assert EntryAt(b, 1) == Entry(DotDot, ROOTINODE);
  }

  /** The root directory that `mkfs` writes has two entries for itself, and its link count
      of 3 is one more: its 32 bytes read back as "." and "..". */
  lemma NewRootCount(dirs: Dirs)
    requires dirs == map[ROOTINODE := EntriesOf(RootEntries(), 2)]
    ensures dirs[ROOTINODE] == [Entry(Dot, ROOTINODE), Entry(DotDot, ROOTINODE)]
    ensures Counts(dirs, [ROOTINODE], ROOTINODE) + 1 == 3
  {
    hide EntriesOf, RootEntries;
    RootDir();
    var es := dirs[ROOTINODE];
    assert es[..1] == [Entry(Dot, ROOTINODE)] && es[..1][..0] == [];
    assert [ROOTINODE][..0] == [];
    assert Naming(es[..1], ROOTINODE) == 1;
  }
}
