/** The memory side of processes (MACHDEP.C, PROCASM.C, SCALL2.C, SCALL3.C, SCALL4.C):
    page allocation, the fault handler with copy-on-write, fork, context switch, exit,
    and program images kept for later `execve`s, for separate-I/D programs
    (`p_bintype` 0). Each method is shown to do to the address spaces what the same
    step does on a machine where no two processes share a page. */
module CowMemory {
  import opened Blocks
  import opened ProcStatus
  import opened PageTables
  import opened CowSteps

  /** How a memory access ends: done, an illegal address, "no pages", or no process slot. */
  datatype Outcome = Done | Segv | NoPages | NoSlot

  /** A byte of a program, or of its arguments, and where it goes. */
  datatype Poke = Poke(entry: nat, off: nat, val: Byte)

  predicate PokesOk(pokes: seq<Poke>) {
    forall i :: 0 <= i < |pokes| ==> pokes[i].entry < ENTRIES && pokes[i].off < PAGE_SIZE
  }

  /** The address space c after some bytes were stored. */
  function Poked(c: Space, pokes: seq<Poke>): (r: Space)
    requires |c| == ENTRIES && PokesOk(pokes)
    ensures |r| == ENTRIES
  {
    if pokes == [] then c
    else
      var d, p := Poked(c, pokes[..|pokes| - 1]), pokes[|pokes| - 1];
      d[p.entry := Stored(d[p.entry], p.off, p.val)]
  }

  /** What `execve` makes of a program that it has to read from the disk. */
  function Loaded(prog: seq<Poke>): (c: Space)
    requires PokesOk(prog)
    ensures |c| == ENTRIES
  {
    Poked(seq<Cell>(16, _ => Fresh), prog)
  }

  predicate NoAbsent(c: Space) {
    forall j :: 0 <= j < |c| ==> c[j] != Absent
  }

  function Zombies(ptab: seq<Proc>): nat {
    if ptab == [] then 0
    else Zombies(ptab[..|ptab| - 1]) + if ptab[|ptab| - 1].status == P_ZOMBIE2 then 1 else 0
  }

  lemma {:induction false} ZombieGone(ptab: seq<Proc>, z: nat)
    requires z < |ptab| && ptab[z].status == P_ZOMBIE2
    ensures Zombies(ptab[z := ptab[z].(status := P_EMPTY)]) < Zombies(ptab)
  {
    var n, gone := |ptab| - 1, ptab[z].(status := P_EMPTY);
    if z == n {
      assert ptab[z := gone][..n] == ptab[..n];
    } else {
      assert ptab[z := gone][..n] == ptab[..n][z := gone];
      ZombieGone(ptab[..n], z);
    }
  }

  lemma EveryPage(m: Memory, j: nat)
    requires Shape(m) && j < ENTRIES && m.upage[j].Real?
    ensures m.upage[j].page < |m.pgtab|
  {
    assert TabsOf(m)[m.cur] == m.upage;
  }

  /** A byte stored into a cell; a page never touched is created with zeros. */
  function Touched(c: Cell): Cell {
    if c.Fresh? then Bytes(ZeroPage()) else c
  }

  function Stored(c: Cell, off: nat, v: Byte): Cell
    requires off < PAGE_SIZE
  {
    match Touched(c)
    case Bytes(data) => Bytes(data[off := v])
    case _ => c
  }

  /** Page tables and uses of images are as they were. */
  predicate SameBlocks(a: seq<Proc>, b: seq<Proc>) {
    |a| == |b| && forall s :: 0 <= s < |a| ==> b[s].ublk == a[s].ublk && b[s].uid == a[s].uid && b[s].pid == a[s].pid
  }

  lemma BlocksTwice(a: seq<Proc>, b: seq<Proc>, c: seq<Proc>)
    ensures SameBlocks(a, a)
    ensures SameBlocks(a, b) && SameBlocks(b, c) ==> SameBlocks(a, c)
  {
  }

  predicate SameBut(a: Table, b: Table, j: nat) {
    |a| == |b| && forall i :: 0 <= i < |a| && i != j ==> b[i] == a[i]
  }

  /** The table is the same but for the pages that something is poked into. */
  predicate SameElsewhere(a: Table, b: Table, pokes: seq<Poke>) {
    |a| == |b| && forall i :: 0 <= i < |a| && (forall p :: p in pokes ==> p.entry != i) ==> b[i] == a[i]
  }

  /** There is an image of the file. */
  predicate HasImage(ptab: seq<Proc>, key: Key) {
    exists s :: 0 <= s < |ptab| && ptab[s].status == P_ZOMBIE2 && ptab[s].key == key
  }

  /** An image of the file, used last by this process. */
  predicate IsImage(p: Proc, key: Key, pid: nat) {
    p.status == P_ZOMBIE2 && p.key == key && p.uid == pid
  }

  /** All pages of an image are shared, but those that something is poked into. */
  predicate Shared(t: Table, image: Table, pokes: seq<Poke>) {
    |t| == |image| && forall i :: 0 <= i < |t| && (forall p :: p in pokes ==> p.entry != i) && image[i].Real? ==>
                        t[i] == image[i]
  }

  class Kernel {
    const load: Key -> Space      // what a program file loads to
    var pgtab: seq<Pg>
    var mem: seq<Page>            // by physical page
    var ptab: seq<Proc>
    var cur: nat                  // udata.u_ptab
    var upage: Table              // udata.u_page
    var mmu: seq<Mmu>

    ghost function St(): Memory
      reads this
    {
      Memory(pgtab, mem, ptab, cur, upage, mmu)
    }

    ghost predicate Valid()
      reads this
    {
      Inv(St()) && Images(St(), load)
    }

    constructor (npages: nat, load: Key -> Space)
      ensures Valid() && St() == Boot(npages) && this.load == load
    {
      BootOk(npages, load);
      var m := Boot(npages);
      this.load := load;
      pgtab, mem, ptab, cur, upage, mmu := m.pgtab, m.mem, m.ptab, m.cur, m.upage, m.mmu;
    }

    /** `pg_free` of the pages of a table. */
    method FreePages(t: Table, ghost ts: seq<Table>)
      requires PgOk(pgtab) && Counted(pgtab, ts, t) && EntriesOk(t, |pgtab|)
      modifies this`pgtab
      ensures PgOk(pgtab) && Counted(pgtab, ts, []) && |pgtab| == |old(pgtab)|
      ensures forall p :: 0 <= p < |pgtab| ==> pgtab[p].refs <= old(pgtab)[p].refs && pgtab[p].wp == old(pgtab)[p].wp
    {
      assert t[0..] == t;
      for j := 0 to |t|
        invariant PgOk(pgtab) && Counted(pgtab, ts, t[j..]) && |pgtab| == |old(pgtab)|
        invariant forall p :: 0 <= p < |pgtab| ==>
          pgtab[p].refs <= old(pgtab)[p].refs && pgtab[p].wp == old(pgtab)[p].wp
      {
        assert t[j..] == [t[j]] + t[j + 1..];
        if t[j].Real? {
          var p := t[j].page;
          UncountOne(pgtab, ts, t[j + 1..], p);
          pgtab := pgtab[p := pgtab[p].(refs := pgtab[p].refs - 1)];
        } else {
          SkipOne(pgtab, ts, t[j + 1..], t[j]);
        }
      }
    }

    /** `pg_realloc` of the pages of a table, which become write-protected. */
    method SharePages(t: Table, ghost ts: seq<Table>)
      requires PgOk(pgtab) && Counted(pgtab, ts, []) && EntriesOk(t, |pgtab|)
      modifies this`pgtab
      ensures PgOk(pgtab) && Counted(pgtab, ts, t) && |pgtab| == |old(pgtab)|
      ensures forall j :: 0 <= j < |t| && t[j].Real? ==> pgtab[t[j].page].wp
      ensures forall p: nat :: p < |pgtab| && Real(p) !in t ==> pgtab[p] == old(pgtab)[p]
    {
      assert t[..|t|] == t;
      for j := 0 to |t|
        invariant PgOk(pgtab) && Counted(pgtab, ts, t[..j]) && |pgtab| == |old(pgtab)|
        invariant forall k :: 0 <= k < j && t[k].Real? ==> pgtab[t[k].page].wp
        invariant forall p: nat :: p < |pgtab| && Real(p) !in t ==> pgtab[p] == old(pgtab)[p]
      {
        assert t[..j + 1] == t[..j] + [t[j]];
        if t[j].Real? {
          var p := t[j].page;
          CountOne(pgtab, ts, t[..j], t[j], p, Pg(pgtab[p].frame, true, pgtab[p].refs + 1));
          pgtab := pgtab[p := Pg(pgtab[p].frame, true, pgtab[p].refs + 1)];
        } else {
          SkipOne(pgtab, ts, t[..j], t[j]);
        }
      }
    }

    predicate IsOldest(ptab: seq<Proc>, z: nat) {
      && z < |ptab| && ptab[z].status == P_ZOMBIE2
      && forall s :: 0 <= s < |ptab| && ptab[s].status == P_ZOMBIE2 ==>
           ptab[z].uid <= ptab[s].uid && (s < z ==> ptab[z].uid < ptab[s].uid)
    }

    /** The search of `free_zombie`. */
    method OldestImage() returns (found: bool, best: nat)
      requires Shape(St())
      ensures found ==> IsOldest(ptab, best)
      ensures !found ==> forall s :: 0 <= s < PTABSIZE ==> ptab[s].status != P_ZOMBIE2
    {
      hide TablesOk;
      found, best := false, 0;
      var bestage := 32100;
      for p := 0 to PTABSIZE
        invariant !found ==> bestage == 32100 && forall s :: 0 <= s < p ==> ptab[s].status != P_ZOMBIE2
        invariant found ==> 0 <= best < p && ptab[best].status == P_ZOMBIE2 && ptab[best].uid == bestage
        invariant forall s :: 0 <= s < p && ptab[s].status == P_ZOMBIE2 ==>
          found && bestage <= ptab[s].uid && (s < best ==> bestage < ptab[s].uid)
      {
        if ptab[p].status == P_ZOMBIE2 && ptab[p].uid < bestage {
          bestage, best, found := ptab[p].uid, p, true;
        }
      }
    }

    /** `free_zombie`: gives up the image used by the oldest process, if there is any. */
    method FreeZombie() returns (found: bool)
      requires Inv(St())
      modifies this`pgtab, this`ptab
      ensures Inv(St()) && Kept(old(St()), St())
      ensures !found ==> St() == old(St()) && forall s :: 0 <= s < PTABSIZE ==> ptab[s].status != P_ZOMBIE2
      ensures found ==> Zombies(ptab) < Zombies(old(ptab))
      ensures SameBlocks(old(ptab), ptab)
      ensures found ==> exists z: nat ::
        IsOldest(old(ptab), z) && ptab == old(ptab)[z := old(ptab)[z].(status := P_EMPTY)]
    {
      hide Counted, SpaceAt, SlotKept, TablesOk, Kept, MmuOk;
      ghost var m := St();
      var best;
      found, best := OldestImage();
      if !found {
        KeptRefl(m);
        return;
      }
      ghost var ts := TabsOf(m);
      Unlist(pgtab, ts, best);
      ImageTable(m, best);
      FreePages(ptab[best].ublk, ts[best := []]);
      ZombieGone(ptab, best);
      ptab := ptab[best := ptab[best].(status := P_EMPTY)];
      EvictKeeps(m, St(), best);
    }

    /** Every page is in use by a process. */
    ghost predicate Exhausted()
      reads this
    {
      && (forall p :: 0 <= p < |pgtab| ==> pgtab[p].refs > 0)
      && (forall s :: 0 <= s < |ptab| ==> ptab[s].status != P_ZOMBIE2)
    }

    /** `pg_alloc`: a page without references, zeroed and writable, for which images are
        given up as needed. It fails only if every page is in use and no image is left. */
    method PgAlloc() returns (ok: bool, pg: nat)
      requires Inv(St())
      modifies this`pgtab, this`ptab, this`mem
      ensures Kept(old(St()), St()) && SameBlocks(old(ptab), ptab)
      ensures ok ==> Claimed(St(), pg) && mem[pg] == ZeroPage()
      ensures !ok ==> Inv(St()) && Exhausted()
    {
      hide Counted, SameBlocks, IsOldest, Zombies, TabsOf, Tabs, SpaceAt, SpaceOf, TablesOk, MmuOk;
      KeptRefl(St());
      BlocksTwice(ptab, ptab, ptab);
      while true
        invariant Inv(St()) && Kept(old(St()), St()) && SameBlocks(old(ptab), ptab)
        decreases Zombies(ptab)
      {
        var p := 0;
        while p < |pgtab| && pgtab[p].refs != 0
          invariant 0 <= p <= |pgtab| && forall q :: 0 <= q < p ==> pgtab[q].refs > 0
        {
          p := p + 1;
        }
        ghost var m := St();
        if p < |pgtab| {
          pgtab := pgtab[p := Pg(pgtab[p].frame, false, 1)];
          mem := mem[p := ZeroPage()];
          ClaimKeeps(m, St(), p, ZeroPage());
          RestTransitive(old(St()), m, St(), PTABSIZE);
          return true, p;
        }
        var found := FreeZombie();
        RestTransitive(old(St()), m, St(), PTABSIZE);
        BlocksTwice(old(ptab), m.ptab, ptab);
        if !found {
          return false, 0;
        }
      }
    }

    lemma KeptRefl(m: Memory)
      requires Shape(m)
      ensures Kept(m, m)
    {
      forall s: nat | s < PTABSIZE ensures SlotKept(m, m, s) {}
    }

    lemma ImageTable(m: Memory, z: nat)
      requires Inv(m) && z < PTABSIZE && m.ptab[z].status == P_ZOMBIE2
      ensures TabsOf(m)[z] == m.ptab[z].ublk && EntriesOk(m.ptab[z].ublk, |m.pgtab|)
    {
    }

    /** `getpag`: loads page j of the current process so that it can be written, or says
        that there is no such page. A virgin page becomes a page of zeros, a shared one
        is copied; no byte of any other process changes. */
    method Getpag(j: nat) returns (r: Outcome)
      requires Inv(St()) && j < ENTRIES
      modifies this`pgtab, this`ptab, this`mem, this`upage, this`mmu
      ensures Inv(St()) && Rest(old(St()), St(), cur)
      ensures r == Segv <==> old(upage)[j] == NoPage
      ensures r == Segv ==> St() == old(St())
      ensures r != NoSlot
      ensures r == Done ==> mmu[j].Mapped? && !mmu[j].wp
      ensures r == Done ==> SpaceAt(St(), cur) == SpaceAt(old(St()), cur)[j := Touched(SpaceAt(old(St()), cur)[j])]
      ensures r == NoPages ==> Kept(old(St()), St()) && Exhausted()
      ensures SameBlocks(old(ptab), ptab) && SameBut(old(upage), upage, j)
    {
      hide Counted, TabsOf, SpaceOf;
      ghost var m := St();
      KeptRefl(m);
      CurSpace(m, j);
      match upage[j]
      case NoPage =>
        return Segv;
      case Virgin =>
        var ok, pg := PgAlloc();
        if !ok {
          KeptIsRest(m, St());
          return NoPages;
        }
        ghost var l := St();
        upage := upage[j := Real(pg)];
        mmu := mmu[j := Mapped(pgtab[pg].frame, false)];
        assert mem == mem[pg := ZeroPage()];
        PutPageKeeps(l, St(), pg, j, ZeroPage());
        KeptRest(m, l, St(), cur);
        SkipOne(pgtab, TabsOf(St()), [], Virgin);
        assert [Virgin] + [] == [Virgin];
        return Done;
      case Real(pg) =>
        EveryPage(m, j);
        if pgtab[pg].wp {
          if pgtab[pg].refs == 1 {
            pgtab := pgtab[pg := pgtab[pg].(wp := false)];
            mmu := mmu[j := Mapped(pgtab[pg].frame, pgtab[pg].wp)];
            UnprotectKeeps(m, St(), j, pg);
          } else {
            r := CopyPage(j, pg);
            return;
          }
        } else {
          mmu := mmu[j := Mapped(pgtab[pg].frame, pgtab[pg].wp)];
          UnprotectKeeps(m, St(), j, pg);
        }
        return Done;
    }

    /** The copy-on-write branch of `getpag`. */
    method CopyPage(j: nat, pg: nat) returns (r: Outcome)
      requires Inv(St()) && j < ENTRIES && upage[j] == Real(pg) && pg < |pgtab|
      modifies this`pgtab, this`ptab, this`mem, this`upage, this`mmu
      ensures Inv(St()) && Rest(old(St()), St(), cur) && r in {Done, NoPages}
      ensures r == Done ==> mmu[j].Mapped? && !mmu[j].wp && SpaceAt(St(), cur) == SpaceAt(old(St()), cur)
      ensures r == NoPages ==> Kept(old(St()), St()) && Exhausted()
      ensures SameBlocks(old(ptab), ptab) && SameBut(old(upage), upage, j)
    {
      hide Counted, TabsOf, SpaceOf, SlotKept, SpaceAt;
      ghost var m := St();
      CurSpace(m, j);
      var ok, newpg := PgAlloc();
      if !ok {
        KeptIsRest(m, St());
        return NoPages;
      }
      ghost var l := St();
      KeptIsRest(m, l);
      CurSpace(l, j);
      mem := mem[newpg := mem[pg]];
      upage := upage[j := Real(newpg)];
      mmu := mmu[j := Mapped(pgtab[newpg].frame, false)];
      ghost var k := St();
      PutPageKeeps(l, k, newpg, j, l.mem[pg]);
      KeptRest(m, l, k, cur);
      DropKeeps(k, pg);
      pgtab := pgtab[pg := pgtab[pg].(refs := pgtab[pg].refs - 1)];
      if pgtab[pg].refs == 1 {
        pgtab := pgtab[pg := pgtab[pg].(wp := false)];
      }
      ghost var d := k.pgtab[pg];
      assert pgtab == k.pgtab[pg := Pg(d.frame, d.wp && d.refs != 2, d.refs - 1)];
      KeptIsRest(k, St());
      RestTransitive(m, k, St(), cur);
      r := Done;
    }

    /** The old page loses a reference, and with the last but one its protection. */
    lemma DropKeeps(m: Memory, pg: nat)
      requires Shape(m) && PgOk(m.pgtab) && MmuOk(m.mmu, m.upage, m.pgtab) && pg < |m.pgtab|
      requires Counted(m.pgtab, TabsOf(m), [Real(pg)])
      ensures var d := m.pgtab[pg];
              && d.refs >= 1
              && var n := m.(pgtab := m.pgtab[pg := Pg(d.frame, d.wp && d.refs != 2, d.refs - 1)]);
              Inv(n) && Kept(m, n)
    {
      hide Counted, SpaceAt, SlotKept, TablesOk, Kept, PgOk, MmuOk, TabsOf;
      assert [Real(pg)] + [] == [Real(pg)];
      UncountOne(m.pgtab, TabsOf(m), [], pg);
      var d := m.pgtab[pg];
      var less := m.pgtab[pg := m.pgtab[pg].(refs := d.refs - 1)];
      var n := m.(pgtab := less[pg := Pg(d.frame, d.wp && d.refs != 2, d.refs - 1)]);
      CountsKeep(m, n);
      DropProtects(m.pgtab, m.mmu, m.upage, pg);
      SameCounts(less, n.pgtab, TabsOf(m), []);
      assert n.pgtab == m.pgtab[pg := Pg(d.frame, d.wp && d.refs != 2, d.refs - 1)];
    }

    lemma SameCounts(a: seq<Pg>, b: seq<Pg>, ts: seq<Table>, plus: Table)
      requires |a| == |b| && (forall p :: 0 <= p < |a| ==> a[p].refs == b[p].refs) && Counted(a, ts, plus)
      ensures Counted(b, ts, plus)
    {
    }

    lemma DropProtects(pgtab: seq<Pg>, mmu: seq<Mmu>, t: Table, pg: nat)
      requires PgOk(pgtab) && MmuOk(mmu, t, pgtab) && pg < |pgtab| && pgtab[pg].refs >= 1
      ensures var d := pgtab[pg];
              var less := pgtab[pg := Pg(d.frame, d.wp && d.refs != 2, d.refs - 1)];
              PgOk(less) && MmuOk(mmu, t, less)
    {
    }

    lemma CurSpace(m: Memory, j: nat)
      requires Shape(m) && j < ENTRIES
      ensures |SpaceAt(m, m.cur)| == ENTRIES && (m.upage[j].Real? ==> m.upage[j].page < |m.mem|)
      ensures SpaceAt(m, m.cur)[j] == CellOf(m.upage[j], m.mem)
    {
      assert TabsOf(m)[m.cur] == m.upage;
    }

    lemma KeptIsRest(m: Memory, n: Memory)
      requires Kept(m, n)
      ensures Rest(m, n, n.cur) && SpaceAt(n, n.cur) == SpaceAt(m, m.cur)
    {
      assert SlotKept(m, n, m.cur);
    }

    lemma UnprotectKeeps(m: Memory, n: Memory, j: nat, pg: nat)
      requires Inv(m) && j < ENTRIES && m.upage[j] == Real(pg) && pg < |m.pgtab|
      requires m.pgtab[pg].refs == 1 || !m.pgtab[pg].wp
      requires n == m.(pgtab := m.pgtab[pg := m.pgtab[pg].(wp := false)], mmu := m.mmu[j := Mapped(pg, false)])
      ensures Inv(n) && Kept(m, n) && Rest(m, n, m.cur) && SpaceAt(n, m.cur) == SpaceAt(m, m.cur)
    {
      CountsKeep(m, n);
      KeptIsRest(m, n);
    }

    // Loading and saving the MMU.

    /** `ldmmu`. */
    method Ldmmu()
      requires |upage| == |mmu| == ENTRIES && EntriesOk(upage, |pgtab|) && PgOk(pgtab)
      modifies this`mmu
      ensures MmuOk(mmu, upage, pgtab)
      ensures forall j :: 0 <= j < ENTRIES ==>
        mmu[j] == if upage[j].Real? then Mapped(pgtab[upage[j].page].frame, pgtab[upage[j].page].wp) else Unmapped
    {
      for j := 0 to ENTRIES
        invariant |mmu| == ENTRIES
        invariant forall k :: 0 <= k < j ==>
          mmu[k] == if upage[k].Real? then Mapped(pgtab[upage[k].page].frame, pgtab[upage[k].page].wp) else Unmapped
      {
        var entry := Unmapped;
        if upage[j].Real? {
          var pg := pgtab[upage[j].page];
          entry := Mapped(pg.frame, pg.wp);
        }
        mmu := mmu[j := entry];
      }
    }

    /** Descriptor p has the protection of an entry that maps it, or is as it was if none
        of the first n does. */
    ghost predicate ReadBack(was: Pg, d: Pg, p: nat, n: nat)
      requires n <= |upage| && n <= |mmu|
      reads this`upage, this`mmu
    {
      if exists j :: 0 <= j < n && upage[j] == Real(p)
      then exists j :: 0 <= j < n && upage[j] == Real(p) && mmu[j] == Mapped(d.frame, d.wp)
      else d == was
    }

    /** `rdmmu`: the MMU's protection bits go back to the descriptors. */
    method Rdmmu()
      requires MmuOk(mmu, upage, pgtab) && PgOk(pgtab)
      modifies this`pgtab
      ensures |pgtab| == |old(pgtab)| && MmuOk(mmu, upage, pgtab) && PgOk(pgtab)
      ensures forall p :: 0 <= p < |pgtab| ==> pgtab[p].refs == old(pgtab)[p].refs
      ensures forall p: nat :: p < |pgtab| ==> ReadBack(old(pgtab)[p], pgtab[p], p, ENTRIES)
    {
      for j := 0 to ENTRIES
        invariant |pgtab| == |old(pgtab)| && MmuOk(mmu, upage, pgtab) && PgOk(pgtab)
        invariant forall p :: 0 <= p < |pgtab| ==> pgtab[p].refs == old(pgtab)[p].refs
        invariant forall p: nat :: p < |pgtab| ==> ReadBack(old(pgtab)[p], pgtab[p], p, j)
      {
        if upage[j].Real? {
          var p := upage[j].page;
          pgtab := pgtab[p := Pg(mmu[j].frame, mmu[j].wp, pgtab[p].refs)];
        }
      }
    }

    /** Reads the MMU back; nothing that matters changes. */
    method Save()
      requires Valid()
      modifies this`pgtab
      ensures Valid() && Kept(old(St()), St()) && |pgtab| == |old(pgtab)|
      ensures forall p: nat :: p < |pgtab| ==> ReadBack(old(pgtab)[p], pgtab[p], p, ENTRIES)
    {
      hide SpaceAt, TablesOk;
      ghost var m := St();
      CurTable(m);
      Rdmmu();
      CountsKeep(m, St());
      KeptImages(m, St(), load);
    }

    lemma CurSlot(m: Memory)
      requires Inv(m)
      ensures Shape(m) && m.cur < |m.ptab| == PTABSIZE
    {
    }

    lemma CurTable(m: Memory)
      requires Shape(m)
      ensures |TabsOf(m)| == PTABSIZE && |m.upage| == |m.mmu| == ENTRIES && |m.pgtab| == |m.mem|
      ensures TabsOf(m)[m.cur] == m.upage && EntriesOk(m.upage, |m.pgtab|)
      ensures forall s :: 0 <= s < PTABSIZE && HasTable(m.ptab[s].status) && s != m.cur ==>
        TabsOf(m)[s] == m.ptab[s].ublk && EntriesOk(m.ptab[s].ublk, |m.pgtab|) && |m.ptab[s].ublk| == ENTRIES
    {
      assert EntriesOk(TabsOf(m)[m.cur], |m.mem|);
      forall s | 0 <= s < PTABSIZE && HasTable(m.ptab[s].status) && s != m.cur
        ensures EntriesOk(m.ptab[s].ublk, |m.pgtab|)
      {
        assert EntriesOk(TabsOf(m)[s], |m.mem|);
      }
    }

    // What programs do.

    /** A byte stored by the current process. If the MMU refuses, `getpag` is called and
        the instruction is repeated, which then succeeds. */
    method StoreByte(j: nat, off: nat, v: Byte) returns (r: Outcome)
      requires Valid() && j < ENTRIES && off < PAGE_SIZE
      modifies this`pgtab, this`ptab, this`mem, this`upage, this`mmu
      ensures Valid() && Rest(old(St()), St(), cur)
      ensures r == Done ==>
                SpaceAt(St(), cur) == SpaceAt(old(St()), cur)[j := Stored(SpaceAt(old(St()), cur)[j], off, v)]
      ensures r == Segv <==> SpaceAt(old(St()), cur)[j] == Absent
      ensures r == Segv ==> St() == old(St())
      ensures r != NoSlot
      ensures r == NoPages ==> Kept(old(St()), St()) && Exhausted()
      ensures SameBlocks(old(ptab), ptab) && SameBut(old(upage), upage, j)
    {
      hide Counted, TabsOf, SpaceOf, SpaceAt, SlotKept;
      ghost var m := St();
      KeptRefl(m);
      CurSpace(m, j);
      if !mmu[j].Mapped? || mmu[j].wp {
        r := Getpag(j);
        RestImages(m, St(), cur, load);
        if r != Done {
          return;
        }
      }
      ghost var l := St();
      CurSpace(l, j);
      var frame := mmu[j].frame;
      mem := mem[frame := mem[frame][off := v]];
      StoreKeeps(l, St(), j, mem[frame]);
      RestImages(l, St(), cur, load);
      RestTransitive(m, l, St(), cur);
      r := Done;
    }

    /** A byte read by the current process. */
    method LoadByte(j: nat, off: nat) returns (r: Outcome, v: Byte)
      requires Valid() && j < ENTRIES && off < PAGE_SIZE
      modifies this`pgtab, this`ptab, this`mem, this`upage, this`mmu
      ensures Valid() && Rest(old(St()), St(), cur)
      ensures r == Done ==> SpaceAt(St(), cur) == SpaceAt(old(St()), cur)[j := Touched(SpaceAt(old(St()), cur)[j])]
      ensures r == Done ==> SpaceAt(St(), cur)[j].Bytes? && v == SpaceAt(St(), cur)[j].data[off]
      ensures r == Segv <==> SpaceAt(old(St()), cur)[j] == Absent
      ensures r == Segv ==> St() == old(St())
      ensures r != NoSlot
      ensures r == NoPages ==> Kept(old(St()), St()) && Exhausted()
    {
      hide Counted, TabsOf, SpaceOf, SpaceAt, SlotKept;
      ghost var m := St();
      KeptRefl(m);
      CurSpace(m, j);
      v := 0;
      if !mmu[j].Mapped? {
        r := Getpag(j);
        RestImages(m, St(), cur, load);
        if r != Done {
          return;
        }
      }
      CurSpace(St(), j);
      v := mem[mmu[j].frame][off];
      r := Done;
    }

    // Processes.

    /** `ptab_alloc`: an empty slot, for which an image is given up if there is none. */
    method PtabAlloc(pid: nat) returns (ok: bool, c: nat)
      requires Valid() && pid <= 32001
      modifies this`pgtab, this`ptab
      ensures Valid() && upage == old(upage) && mem == old(mem)
      ensures ok ==> c < PTABSIZE && c != cur && ptab[c] == NewProc(pid) && TabsOf(St())[c] == Filled(NoPage)
      ensures ok ==> Rest(old(St()), St(), c) && cur == old(cur) && Class(old(ptab)[c].status) == P_EMPTY
      ensures ok ==> SpaceAt(St(), cur) == SpaceAt(old(St()), cur)
      ensures !ok ==> Kept(old(St()), St()) && P_EMPTY !in Classes(ptab)
    {
      hide Counted, TabsOf, SpaceOf, SpaceAt, SlotKept, MmuOk, PgOk;
      KeptRefl(St());
      while true
        invariant Valid() && Kept(old(St()), St()) && upage == old(upage) && mem == old(mem)
        decreases Zombies(ptab)
      {
        c := 0;
        while c < PTABSIZE && ptab[c].status != P_EMPTY
          invariant 0 <= c <= PTABSIZE && forall s :: 0 <= s < c ==> ptab[s].status != P_EMPTY
        {
          c := c + 1;
        }
        ghost var m := St();
        if c < PTABSIZE {
          ptab := ptab[c := NewProc(pid)];
          NewSlotKeeps(m, St(), c, pid);
          RestImages(m, St(), c, load);
          SlotWasFree(old(St()), m, c);
          KeptIsRest(old(St()), m);
          KeptRest(old(St()), m, St(), c);
          KeptSlot(m, St(), c);
          return true, c;
        }
        var found := FreeZombie();
        KeptImages(m, St(), load);
        RestTransitive(old(St()), m, St(), PTABSIZE);
        if !found {
          return false, 0;
        }
      }
    }

    lemma SlotWasFree(m: Memory, n: Memory, c: nat)
      requires Kept(m, n) && c < PTABSIZE && n.ptab[c].status == P_EMPTY
      ensures Class(m.ptab[c].status) == P_EMPTY
    {
      assert SlotKept(m, n, c);
    }

    lemma KeptSlot(m: Memory, n: Memory, c: nat)
      requires Rest(m, n, c) && n.cur == m.cur != c
      ensures SpaceAt(n, n.cur) == SpaceAt(m, m.cur)
    {
      assert SlotKept(m, n, m.cur);
    }

    /** `dofork`: the child gets the parent's address space, and runs next. */
    method Dofork(pid: nat) returns (ok: bool)
      requires Valid() && pid <= 32001
      modifies this`pgtab, this`ptab, this`mmu, this`cur
      ensures Valid()
      ensures ok <==> P_EMPTY in Classes(old(ptab))
      ensures ok ==> |ptab| == PTABSIZE && cur < PTABSIZE && Class(old(ptab)[cur].status) == P_EMPTY
      ensures ok ==> Classes(ptab) == Classes(old(ptab))[old(cur) := P_READY][cur := P_RUNNING]
      ensures !ok ==> Classes(ptab) == Classes(old(ptab))
      ensures ok ==> View(St()) == Plain(cur, View(old(St())).spaces[cur := SpaceAt(old(St()), old(cur))])
      ensures !ok ==> View(St()) == View(old(St()))
    {
      hide Counted, SpaceAt, SlotKept, MmuOk, PgOk, TabsOf, Kept, View, Images;
      ghost var k := St();
      var c;
      ok, c := PtabAlloc(pid);
      if !ok {
        KeptView(k, St());
        KeptClasses(k, St());
        return;
      }
      RestClasses(k, St(), c);
      NewSlotView(k, St(), c, load);
      ghost var l := St();
      Save();
      ghost var m := St();
      SameTables(l, m);
      CurTable(m);
      SharePages(upage, TabsOf(m));
      Ldmmu();
      ptab := ptab[cur := ptab[cur].(status := P_READY, ublk := upage)];
      ptab := ptab[c := ptab[c].(status := P_RUNNING, uid := ptab[cur].uid)];
      cur := c;
      ForkKeeps(m, St(), c);
      ForkView(m, St(), c, load);
    }

    /** Reading back the MMU changes protection only. */
    lemma SameTables(m: Memory, n: Memory)
      requires Kept(m, n) && n == m.(pgtab := n.pgtab)
      ensures TabsOf(n) == TabsOf(m) && View(n) == View(m) && SpaceAt(n, n.cur) == SpaceAt(m, m.cur)
    {
      KeptView(m, n);
      KeptIsRest(m, n);
    }

    /** A new slot is a new, empty address space. */
    lemma NewSlotView(m: Memory, n: Memory, c: nat, load: Key -> Space)
      requires Rest(m, n, c) && c < PTABSIZE && n.cur == m.cur
      requires !HasSpace(m.ptab[c].status) && n.ptab[c].status == P_FORKING
      ensures View(n) == Plain(m.cur, View(m).spaces[c := SpaceAt(n, c)])
    {
      hide SpaceAt, View, Shape;
      ViewIs(m);
      ViewIs(n);
      RestOfView(m, n, c, c, load);
      assert View(n).spaces == View(m).spaces[c := SpaceAt(n, c)];
    }

    /** `swapout` and `swapin`: the current process is saved with a status given by what it
        waits for, and a READY process, possibly the same one, comes in. */
    method Swapout(st: Status, b: nat)
      requires Valid() && Waits(st) && b < PTABSIZE && (if b == cur then st == P_READY else ptab[b].status == P_READY)
      modifies this`pgtab, this`ptab, this`mmu, this`cur, this`upage
      ensures Valid() && View(St()) == Plain(b, View(old(St())).spaces)
      ensures Classes(ptab) ==
              if b == old(cur) then Classes(old(ptab)) else Classes(old(ptab))[old(cur) := st][b := P_RUNNING]
    {
      hide Counted, SpaceAt, SlotKept, MmuOk, PgOk, TabsOf, Kept;
      if b == cur {
        ptab := ptab[cur := ptab[cur].(status := P_READY)];
        ptab := ptab[cur := ptab[cur].(status := P_RUNNING)];
        assert ptab == old(ptab);
        return;
      }
      ghost var l := St();
      Save();
      ghost var m := St();
      SameTables(l, m);
      CurTable(m);
      ptab := ptab[cur := ptab[cur].(status := st, ublk := upage)];
      upage := ptab[b].ublk;
      Ldmmu();
      ptab := ptab[b := ptab[b].(status := P_RUNNING)];
      cur := b;
      SwitchRest(m, St(), st, b);
      SwitchKeeps(m, St(), b, load);
    }

    /** `doexit`, up to the process that the scheduler finds next. */
    method Exit(b: nat)
      requires Valid() && b < PTABSIZE && b != cur && ptab[b].status == P_READY
      modifies this`pgtab, this`ptab, this`mmu, this`cur, this`upage
      ensures Valid() && View(St()) == Plain(b, View(old(St())).spaces - {old(cur)})
      ensures Classes(ptab) == Classes(old(ptab))[old(cur) := P_ZOMBIE][b := P_RUNNING]
    {
      hide Counted, SpaceAt, SlotKept, TabsOf, Kept;
      ghost var m := St();
      CurTable(m);
      Unlist(pgtab, TabsOf(m), cur);
      ptab := ptab[cur := ptab[cur].(status := P_ZOMBIE)];
      FreePages(upage, TabsOf(m)[cur := []]);
      upage := ptab[b].ublk;
      Ldmmu();
      ptab := ptab[b := ptab[b].(status := P_RUNNING)];
      cur := b;
      ExitRest(m, St(), b);
      ExitKeeps(m, St(), b, load);
    }

    /** A sleeper becomes READY (`wakeup`, `ssig`), or an exited child is collected (`_wait`). */
    method SetStatus(s: nat)
      requires Valid() && s < PTABSIZE && (Waits(ptab[s].status) || ptab[s].status == P_ZOMBIE)
      modifies this`ptab
      ensures Valid() && View(St()) == View(old(St()))
      ensures Classes(ptab) == Classes(old(ptab))[s := if old(ptab)[s].status == P_ZOMBIE then P_EMPTY else P_READY]
    {
      hide Counted, SpaceAt, SlotKept, TabsOf, MmuOk, PgOk;
      ghost var m := St();
      var st := if ptab[s].status == P_ZOMBIE then P_EMPTY else P_READY;
      ptab := ptab[s := ptab[s].(status := st)];
      StatusRest(m, St(), s, st);
      StatusKeeps(m, St(), s, load);
    }

    // `execve`.

    /** The bytes of a program or its arguments go to the address space (`uput`, `uputp`). */
    method PokeAll(pokes: seq<Poke>) returns (r: Outcome)
      requires Valid() && PokesOk(pokes) && NoAbsent(SpaceAt(St(), cur))
      modifies this`pgtab, this`ptab, this`mem, this`upage, this`mmu
      ensures Valid() && Rest(old(St()), St(), cur) && r in {Done, NoPages}
      ensures |SpaceAt(old(St()), cur)| == ENTRIES
      ensures r == NoPages ==> Exhausted()
      ensures r == Done ==> SpaceAt(St(), cur) == Poked(SpaceAt(old(St()), cur), pokes) && NoAbsent(SpaceAt(St(), cur))
      ensures SameBlocks(old(ptab), ptab) && SameElsewhere(old(upage), upage, pokes)
    {
      hide Counted, PgOk, MmuOk, SpaceAt, SlotKept, TabsOf, Images;
      ghost var m := St();
      KeptRefl(m);
      KeptIsRest(m, m);
      CurSpace(m, 0);
      for i := 0 to |pokes|
        invariant Valid() && Rest(m, St(), cur) && cur == m.cur && NoAbsent(SpaceAt(St(), cur))
        invariant |SpaceAt(St(), cur)| == ENTRIES && SpaceAt(St(), cur) == Poked(SpaceAt(m, cur), pokes[..i])
        invariant SameBlocks(m.ptab, ptab) && SameElsewhere(m.upage, upage, pokes)
      {
        ghost var l := St();
        r := StoreByte(pokes[i].entry, pokes[i].off, pokes[i].val);
        RestTransitive(m, l, St(), cur);
        assert pokes[..i + 1][..i] == pokes[..i];
        if r != Done {
          return;
        }
      }
      assert pokes[..|pokes|] == pokes;
      r := Done;
    }

    /** `find_zombie2`: an image of this very file, which is kept from being given up. */
    method FindZombie2(key: Key) returns (found: bool, z: nat)
      requires Valid()
      modifies this`ptab
      ensures Valid() && SpaceAt(St(), cur) == SpaceAt(old(St()), cur)
      ensures found ==>
                && z < PTABSIZE && z != cur
                && ptab[z].status == P_FORKING && ptab[z].key == key && ptab[z].uid == ptab[cur].pid
      ensures found ==> SpaceAt(St(), z) == load(key) && old(ptab)[z].status == P_ZOMBIE2 && Rest(old(St()), St(), z)
      ensures !found ==> St() == old(St())
      ensures found ==> |old(ptab)| == PTABSIZE && cur < PTABSIZE &&
                        ptab == old(ptab)[z := old(ptab)[z].(status := P_FORKING, uid := old(ptab)[cur].pid)]
      ensures found <==> HasImage(old(ptab), key)
    {
      hide Counted, TabsOf, SpaceAt, SlotKept, MmuOk, PgOk;
      ghost var m := St();
      for p := 0 to PTABSIZE
        invariant forall s :: 0 <= s < p && ptab[s].status == P_ZOMBIE2 ==> ptab[s].key != key
      {
        if ptab[p].status == P_ZOMBIE2 && ptab[p].key == key {
          ptab := ptab[p := ptab[p].(status := P_FORKING, uid := ptab[cur].pid)];
          TagKeeps(m, St(), p, P_FORKING, ptab[cur].pid);
          RestImages(m, St(), p, load);
          return true, p;
        }
      }
      found, z := false, 0;
    }

    /** The old pages are released; the new table is all virgin, or that of an image
        (`give_pages`). */
    method NewImage(found: bool, z: nat)
      requires Valid() && (found ==> z < PTABSIZE && z != cur && ptab[z].status == P_FORKING)
      modifies this`pgtab, this`upage, this`mmu
      ensures Valid() && Rest(old(St()), St(), cur)
      ensures SpaceAt(St(), cur) == if found then SpaceAt(old(St()), z) else seq<Cell>(16, _ => Fresh)
      ensures found ==> z < |ptab| && upage == ptab[z].ublk
    {
      hide Counted, SlotKept, Images;
      ghost var m := St();
      CurTable(m);
      ghost var ts := TabsOf(m)[cur := []];
      Unlist(pgtab, TabsOf(m), cur);
      FreePages(upage, ts);
      var t := Filled(Virgin);
      if found {
        t := ptab[z].ublk;
        SharePages(t, ts);
      } else {
        VirginCounts(pgtab, ts);
      }
      upage := t;
      Ldmmu();
      NewTableKeeps(m, St(), t);
      RestImages(m, St(), cur, load);
    }

    lemma VirginCounts(pgtab: seq<Pg>, ts: seq<Table>)
      requires Counted(pgtab, ts, [])
      ensures Counted(pgtab, ts, Filled(Virgin))
    {
      forall p | 0 <= p < |pgtab| ensures Uses(Filled(Virgin), p) == 0 {
        UsesNone(Filled(Virgin), p);
      }
    }

    /** `make_zombie`: an image of the freshly loaded program for later use. */
    method MakeZombie(key: Key, pid: nat) returns (ok: bool, z: nat)
      requires Valid() && pid <= 32001 && SpaceAt(St(), cur) == load(key)
      modifies this`pgtab, this`ptab, this`mmu
      ensures ok ==>
                && Valid() && z < PTABSIZE
                && z != cur && Rest(old(St()), St(), z) && Class(old(ptab)[z].status) == P_EMPTY
      ensures ok ==> |ptab| == PTABSIZE && cur < PTABSIZE && ptab[z].uid == ptab[cur].pid && ptab[z].ublk == upage
      ensures ok ==> |old(ptab)| == PTABSIZE && ptab[cur].pid == old(ptab)[cur].pid
      ensures ok ==>
                && ptab[z].status == P_FORKING
                && ptab[z].key == key && SpaceAt(St(), z) == SpaceAt(St(), cur) == load(key)
      ensures ok <==> P_EMPTY in Classes(old(ptab))
      ensures !ok ==> Inv(St()) && P_EMPTY !in Classes(ptab)
    {
      hide Counted, SpaceAt, SlotKept, MmuOk, PgOk, TabsOf, Kept;
      ghost var k := St();
      Save();
      ghost var l := St();
      SameTables(k, l);
      ok, z := PtabAlloc(pid);
      if !ok {
        KeptClasses(l, St());
        return;
      }
      ghost var m := St();
      CurTable(m);
      SharePages(upage, TabsOf(m));
      Ldmmu();
      ptab := ptab[z := ptab[z].(key := key, uid := ptab[cur].pid, ublk := upage)];
      ImageKeeps(m, St(), z, key, ptab[cur].pid);
      RestImages(m, St(), z, load);
      KeptIsRestAt(k, l, z);
      RestTransitive(k, l, m, z);
      RestTransitive(k, m, St(), z);
      CurPid(k, St(), z);
    }

    lemma CurPid(m: Memory, n: Memory, z: nat)
      requires Inv(m) && Inv(n) && Rest(m, n, z) && m.cur == n.cur != z
      ensures |m.ptab| == |n.ptab| == PTABSIZE && m.cur < PTABSIZE && n.ptab[n.cur].pid == m.ptab[m.cur].pid
    {
      assert SlotKept(m, n, m.cur);
    }

    lemma KeptIsRestAt(m: Memory, n: Memory, z: nat)
      requires Kept(m, n)
      ensures Rest(m, n, z)
    {
    }

    /** The slots that an `execve` works on: everything but the current process and the
        image is as it was, and the image is that of the file. */
    ghost predicate Executing(m: Memory, found: bool, z: nat, key: Key)
      reads this
    {
      && Valid() && cur == m.cur && Shape(m) && z < PTABSIZE && RestOf(m, St(), cur, z) && ptab[z].status != P_ZOMBIE2
      && (if found then z != cur && ptab[z].status == P_FORKING && ptab[z].key == key
                        && SpaceAt(St(), z) == load(key) && Class(m.ptab[z].status) == P_EMPTY
          else z == cur)
    }

    /** A step that leaves all but the current process alone. */
    lemma StillExecuting(k: Memory, m: Memory, found: bool, z: nat, key: Key)
      requires Shape(m) && Valid() && k.cur == cur == m.cur && z < PTABSIZE
      requires Rest(k, St(), cur) && RestOf(m, k, cur, z)
      requires k.ptab[z].status != P_ZOMBIE2
      requires if found then z != cur && k.ptab[z].status == P_FORKING && k.ptab[z].key == key
                             && SpaceAt(k, z) == load(key) && Class(m.ptab[z].status) == P_EMPTY
               else z == cur
      ensures Executing(m, found, z, key)
    {
      hide SpaceAt, Inv, Images;
      RestIsRestOf(k, St(), cur, z);
      RestOfTransitive(m, k, St(), cur, z);
      if found { SlotStays(k, St(), cur, z); }
    }

    /** The first half of `execve`: the program is in place, from an image or from the
        file, and in the latter case an image of it is made, except for init. */
    method Prepare(key: Key, prog: seq<Poke>, pid: nat) returns (r: Outcome, found: bool, z: nat)
      requires Valid() && PokesOk(prog) && load(key) == Loaded(prog) && pid <= 32001
      modifies this`pgtab, this`ptab, this`mem, this`upage, this`mmu
      ensures r == Done ==> Executing(old(St()), found, z, key) && SpaceAt(St(), cur) == Loaded(prog)
      ensures r in {Done, NoPages, NoSlot} && Inv(St())
      ensures r == NoPages ==> Exhausted()
      ensures r == NoSlot ==> P_EMPTY !in Classes(ptab)
      ensures r == Done ==> |ptab| == |old(ptab)| == PTABSIZE && z < PTABSIZE && cur < PTABSIZE
      ensures r == Done ==> (found <==> HasImage(old(ptab), key) || old(ptab)[cur].pid != 1)
      ensures r == Done && found ==> upage == ptab[z].ublk && ptab[z].uid == ptab[cur].pid == old(ptab)[cur].pid
    {
      hide Inv, Shape, SpaceAt, SlotKept, TabsOf, Images, Poked, Rest, RestOf;
      ghost var m := St();
      SetKey(key);
      ghost var k1 := St();
      found, z := FindZombie2(key);
      if !found { z := cur; }
      ghost var k2 := St();
      StartExecuting(m, k1, found, z, key);
      NewImage(found, z);
      StillExecuting(k2, m, found, z, key);
      if !found {
        ghost var k3 := St();
        r := PokeAll(prog);
        if r != Done { return; }
        StillExecuting(k3, m, found, z, key);
        CurSlot(St());
        if ptab[cur].pid != 1 {
          ghost var k4 := St();
          found, z := MakeZombie(key, pid);
          if !found { return NoSlot, false, 0; }
          ImageExecuting(m, k4, z, key);
        }
      }
      r := Done;
    }

    /** The current process is no image. */
    lemma NotImage(m: Memory, key: Key)
      requires Inv(m)
      ensures m.cur < |m.ptab|
      ensures HasImage(m.ptab, key) <==> HasImage(m.ptab[m.cur := m.ptab[m.cur].(key := key)], key)
    {
      var b := m.ptab[m.cur := m.ptab[m.cur].(key := key)];
      if HasImage(m.ptab, key) {
        var s :| 0 <= s < |m.ptab| && m.ptab[s].status == P_ZOMBIE2 && m.ptab[s].key == key;
        assert b[s] == m.ptab[s];
      }
    }

    method SetKey(key: Key)
      requires Valid()
      modifies this`ptab
      ensures Valid() && Rest(old(St()), St(), cur) && cur == old(cur)
      ensures cur < |old(ptab)| == PTABSIZE && ptab == old(ptab)[cur := old(ptab)[cur].(key := key)]
      ensures HasImage(old(ptab), key) <==> HasImage(ptab, key)
    {
      ghost var m := St();
      NotImage(m, key);
      ptab := ptab[cur := ptab[cur].(key := key)];
      KeyKeeps(m, St(), key);
      RestImages(m, St(), cur, load);
    }

    lemma StartExecuting(m: Memory, k: Memory, found: bool, z: nat, key: Key)
      requires Valid() && Rest(m, k, cur) && m.cur == k.cur == cur
      requires found ==> z < PTABSIZE && z != cur && ptab[z].status == P_FORKING && ptab[z].key == key
                         && SpaceAt(St(), z) == load(key) && k.ptab[z].status == P_ZOMBIE2 && Rest(k, St(), z)
      requires !found ==> z == cur && St() == k
      ensures Executing(m, found, z, key)
    {
      RestIsRestOf(m, k, cur, z);
      if found {
        assert SlotKept(m, k, z);
        RestIsRestOf(k, St(), cur, z);
        RestOfTransitive(m, k, St(), cur, z);
      }
    }

    lemma ImageExecuting(m: Memory, k: Memory, z: nat, key: Key)
      requires Valid() && Shape(m) && RestOf(m, k, cur, cur) && k.cur == cur == m.cur
      requires z < PTABSIZE && z != cur && Rest(k, St(), z)
      requires Class(k.ptab[z].status) == P_EMPTY && ptab[z].status == P_FORKING
      requires ptab[z].key == key && SpaceAt(St(), z) == load(key)
      ensures Executing(m, true, z, key)
    {
      assert SlotKept(m, k, z);
      assert RestOf(m, k, cur, z);
      RestIsRestOf(k, St(), cur, z);
      RestOfTransitive(m, k, St(), cur, z);
    }

    /** The end of `execve`: program pages that were never loaded become illegal. */
    method Seal()
      requires Valid()
      modifies this`pgtab, this`upage, this`mmu
      ensures Valid() && Rest(old(St()), St(), cur) && SpaceAt(St(), cur) == SealedSpace(SpaceAt(old(St()), cur))
      ensures |upage| == |old(upage)| == ENTRIES && upage == Sealed(old(upage))
    {
      hide Counted, SlotKept, SpaceAt, Images, Kept;
      ghost var l := St();
      Save();
      ghost var m := St();
      SameTables(l, m);
      KeptIsRest(l, m);
      CurTable(m);
      for j := 8 to ENTRIES
        invariant |upage| == ENTRIES && St() == m.(upage := upage)
        invariant forall k :: 0 <= k < ENTRIES ==>
          upage[k] == if k < j && Sealed(m.upage)[k] == NoPage then NoPage else m.upage[k]
      {
        if upage[j] == Virgin {
          upage := upage[j := NoPage];
        }
      }
      assert upage == Sealed(m.upage);
      Ldmmu();
      SealKeeps(m, St());
      RestImages(m, St(), cur, load);
      RestTransitive(l, m, St(), cur);
    }

    /** `execve`: the process gets the program as its file has it, with its arguments,
        whether the pages come from the file or are shared with an image of it. */
    method Execve(key: Key, prog: seq<Poke>, args: seq<Poke>, pid: nat) returns (r: Outcome)
      requires Valid() && PokesOk(prog) && PokesOk(args) && load(key) == Loaded(prog) && pid <= 32001
      modifies this`pgtab, this`ptab, this`mem, this`upage, this`mmu
      ensures r == Done ==> Valid()
      ensures r == Done ==>
                var space := SealedSpace(Poked(Loaded(prog), args));
                View(St()) == Plain(old(cur), View(old(St())).spaces[old(cur) := space])
      ensures r == Done ==> Classes(ptab) == Classes(old(ptab))
      ensures r == Done ==> |ptab| == |old(ptab)| == PTABSIZE && cur < PTABSIZE
      ensures r == Done && (HasImage(old(ptab), key) || old(ptab)[cur].pid != 1) ==>
                exists z :: 0 <= z < PTABSIZE && z != cur && IsImage(ptab[z], key, ptab[cur].pid)
                            && Shared(upage, ptab[z].ublk, args)
      ensures r in {Done, NoPages, NoSlot} && Inv(St())
      ensures r == NoPages ==> Exhausted()
      ensures r == NoSlot ==> P_EMPTY !in Classes(ptab)
    {
      hide Inv, SpaceAt, SlotKept, TabsOf, Images, Poked, Rest, RestOf, View;
      ghost var m := St();
      var found, z;
      r, found, z := Prepare(key, prog, pid);
      if r != Done { return; }
      LoadedLegal(prog);
      ghost var k1 := St();
      r := PokeAll(args);
      if r != Done { return; }
      StillExecuting(k1, m, found, z, key);
      ghost var k2 := St();
      Seal();
      StillExecuting(k2, m, found, z, key);
      ghost var k3 := St();
      if found {
        Publish(z, key);
        RestIsRestOf(k3, St(), cur, z);
        RestOfTransitive(m, k3, St(), cur, z);
      }
      ExecView(m, found, z);
    }

    lemma ExecView(m: Memory, found: bool, z: nat)
      requires Shape(m) && Valid() && cur == m.cur && z < PTABSIZE && RestOf(m, St(), cur, z)
      requires if found then z != cur && ptab[z].status == P_ZOMBIE2 && Class(m.ptab[z].status) == P_EMPTY else z == cur
      ensures View(St()) == Plain(cur, View(m).spaces[cur := SpaceAt(St(), cur)])
      ensures Classes(ptab) == Classes(m.ptab)
    {
      hide SpaceAt, View, Shape;
      ViewIs(m);
      ViewIs(St());
      RestOfView(m, St(), cur, z, load);
      RestOfClasses(m, St(), cur, z);
      assert View(St()).spaces == View(m).spaces[cur := SpaceAt(St(), cur)];
    }

    lemma LoadedLegal(prog: seq<Poke>)
      requires PokesOk(prog)
      ensures NoAbsent(Loaded(prog))
    {
      PokedLegal(seq<Cell>(16, _ => Fresh), prog);
    }

    lemma {:induction false} PokedLegal(c: Space, pokes: seq<Poke>)
      requires |c| == ENTRIES && PokesOk(pokes) && NoAbsent(c)
      ensures NoAbsent(Poked(c, pokes))
    {
      if pokes != [] { PokedLegal(c, pokes[..|pokes| - 1]); }
    }

    /** The image may be given up again from now on. */
    method Publish(z: nat, key: Key)
      requires Valid() && z < PTABSIZE && z != cur && ptab[z].status == P_FORKING
      requires ptab[z].key == key && SpaceAt(St(), z) == load(key)
      modifies this`ptab
      ensures Valid() && cur == old(cur) && Rest(old(St()), St(), z) && SpaceAt(St(), cur) == SpaceAt(old(St()), cur)
      ensures ptab == old(ptab)[z := old(ptab)[z].(status := P_ZOMBIE2)] && |ptab| == PTABSIZE
      ensures SpaceAt(St(), z) == load(key)
    {
      hide Counted, SpaceAt, SlotKept, TabsOf, Rest;
      ghost var m := St();
      ptab := ptab[z := ptab[z].(status := P_ZOMBIE2)];
      TagKeeps(m, St(), z, P_ZOMBIE2, ptab[z].uid);
      RestImages(m, St(), z, load);
    }
  }
}
