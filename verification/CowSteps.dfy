/** What process creation, context switches, exit and `execve` do to page tables and
    counts, and that on the abstract machine they are a copy, a change of the current
    process, a removal and a replacement of one address space. */
module CowSteps {
  import opened ProcStatus
  import opened PageTables

  /** All 16 entries alike. */
  function Filled(e: Entry): Table {
    seq<Entry>(16, _ => e)
  }

  predicate NoReal(t: Table) {
    forall j :: 0 <= j < |t| ==> !t[j].Real?
  }

  /** Tables without pages do not count. */
  lemma BlankCounts(pgtab: seq<Pg>, ts: seq<Table>, s: nat, t: Table)
    requires s < |ts| && Counted(pgtab, ts, []) && NoReal(ts[s]) && NoReal(t)
    ensures Counted(pgtab, ts[s := t], [])
  {
    forall p | 0 <= p < |pgtab| ensures pgtab[p].refs == Refs(ts[s := t], p) + Uses([], p) {
      RefsSet(ts, s, t, p);
      UsesNone(ts[s], p);
      UsesNone(t, p);
    }
  }

  lemma {:induction false} NoRefs(ts: seq<Table>, p: nat)
    requires forall s :: 0 <= s < |ts| ==> NoReal(ts[s])
    ensures Refs(ts, p) == 0
  {
    if ts != [] {
      NoRefs(ts[..|ts| - 1], p);
      UsesNone(ts[|ts| - 1], p);
    }
  }

  /** The system at boot: one process with one page, not touched yet. */
  function Boot(npages: nat): Memory {
    Memory(seq<Pg>(npages, p requires 0 <= p => Pg(p, false, 0)), seq<Page>(npages, _ => ZeroPage()),
           seq<Proc>(30, s => if s == 0 then Proc(P_RUNNING, 1, 0, Key(0, 0, 0), Filled(NoPage))
                              else Proc(P_EMPTY, 0, 0, Key(0, 0, 0), Filled(NoPage))),
           0, Filled(NoPage)[0 := Virgin], seq<Mmu>(16, _ => Unmapped))
  }

  lemma BootOk(npages: nat, load: Key -> Space)
    ensures Inv(Boot(npages)) && Images(Boot(npages), load)
  {
    var m := Boot(npages);
    forall p | 0 <= p < npages ensures m.pgtab[p].refs == Refs(TabsOf(m), p) + Uses([], p) {
      NoRefs(TabsOf(m), p);
    }
  }

  /** All slots but two are kept. */
  ghost predicate RestOf(m: Memory, n: Memory, a: nat, b: nat) {
    && Shape(m) && Shape(n)
    && forall s: nat {:trigger SlotKept(m, n, s)} :: s < PTABSIZE && s != a && s != b ==> SlotKept(m, n, s)
  }

  lemma RestOfView(m: Memory, n: Memory, a: nat, b: nat, load: Key -> Space)
    requires RestOf(m, n, a, b)
    ensures forall s: nat :: s < PTABSIZE && s != a && s != b ==>
              && (s in View(n).spaces <==> s in View(m).spaces)
              && (s in View(m).spaces ==> View(n).spaces[s] == View(m).spaces[s])
    ensures Images(m, load) && a < PTABSIZE && b < PTABSIZE && P_ZOMBIE2 !in {n.ptab[a].status, n.ptab[b].status} ==>
              Images(n, load)
  {
    hide SpaceAt;
    forall s: nat | s < PTABSIZE && s != a && s != b
      ensures HasSpace(n.ptab[s].status) == HasSpace(m.ptab[s].status)
      ensures HasSpace(m.ptab[s].status) ==> SpaceAt(n, s) == SpaceAt(m, s)
      ensures n.ptab[s].status == P_ZOMBIE2 ==> m.ptab[s].status == P_ZOMBIE2 && n.ptab[s].key == m.ptab[s].key
      ensures n.ptab[s].status == P_ZOMBIE2 ==> SpaceAt(n, s) == SpaceAt(m, s)
    {
      assert SlotKept(m, n, s);
    }
  }

  lemma RestOfTransitive(l: Memory, m: Memory, n: Memory, a: nat, b: nat)
    requires RestOf(l, m, a, b) && RestOf(m, n, a, b)
    ensures RestOf(l, n, a, b)
  {
    hide Shape, SpaceAt;
    forall s: nat | s < PTABSIZE && s != a && s != b ensures SlotKept(l, n, s) {
      assert SlotKept(l, m, s) && SlotKept(m, n, s);
    }
  }

  lemma RestOfClasses(m: Memory, n: Memory, a: nat, b: nat)
    requires RestOf(m, n, a, b) && a < PTABSIZE && b < PTABSIZE
    requires Class(n.ptab[a].status) == Class(m.ptab[a].status) && Class(n.ptab[b].status) == Class(m.ptab[b].status)
    ensures Classes(n.ptab) == Classes(m.ptab)
  {
    hide SpaceAt;
    forall s: nat | s < PTABSIZE ensures Class(n.ptab[s].status) == Class(m.ptab[s].status) {
      if s != a && s != b { assert SlotKept(m, n, s); }
    }
  }

  lemma RestIsRestOf(m: Memory, n: Memory, a: nat, b: nat)
    requires Rest(m, n, a) || Rest(m, n, b)
    ensures RestOf(m, n, a, b)
  {
  }

  /** A slot that is not an image for anybody to take keeps all it has. */
  lemma SlotStays(m: Memory, n: Memory, s0: nat, s: nat)
    requires Rest(m, n, s0) && s < PTABSIZE && s != s0 && m.ptab[s].status != P_ZOMBIE2
    ensures n.ptab[s].status == m.ptab[s].status && n.ptab[s].key == m.ptab[s].key && SpaceAt(n, s) == SpaceAt(m, s)
  {
    assert SlotKept(m, n, s);
  }

  function NewProc(pid: nat): Proc {
    Proc(P_FORKING, pid, 0, Key(0, 0, 0), Filled(NoPage))
  }

  /** `ptab_alloc`: an empty slot with a zeroed user block. */
  lemma NewSlotKeeps(m: Memory, n: Memory, c: nat, pid: nat)
    requires Inv(m) && c < PTABSIZE && m.ptab[c].status == P_EMPTY && pid <= 32001
    requires n == m.(ptab := m.ptab[c := NewProc(pid)])
    ensures Inv(n) && Rest(m, n, c) && c != n.cur && TabsOf(n)[c] == Filled(NoPage)
  {
    hide Counted, MmuOk, PgOk;
    assert TabsOf(n) == TabsOf(m)[c := Filled(NoPage)];
    BlankCounts(m.pgtab, TabsOf(m), c, Filled(NoPage));
    forall s: nat | s < PTABSIZE && s != c ensures SlotKept(m, n, s) {
      assert SpaceAt(n, s) == SpaceAt(m, s);
    }
  }

  /** The parent is saved and READY, the child runs on the same table. */
  function Forked(m: Memory, c: nat): seq<Proc>
    requires m.cur < |m.ptab| && c < |m.ptab|
  {
    m.ptab[m.cur := m.ptab[m.cur].(status := P_READY, ublk := m.upage)]
          [c := m.ptab[c].(status := P_RUNNING, uid := m.ptab[m.cur].uid)]
  }

  lemma ForkKeeps(m: Memory, n: Memory, c: nat)
    requires Inv(m) && c < PTABSIZE && c != m.cur && m.ptab[c].status == P_FORKING && NoReal(TabsOf(m)[c])
    requires n == m.(pgtab := n.pgtab, mmu := n.mmu, ptab := Forked(m, c), cur := c)
    requires |n.pgtab| == |m.pgtab| && PgOk(n.pgtab)
    requires Counted(n.pgtab, TabsOf(m), m.upage) && MmuOk(n.mmu, m.upage, n.pgtab)
    ensures Inv(n) && RestOf(m, n, m.cur, c)
    ensures SpaceAt(n, c) == SpaceAt(n, m.cur) == SpaceAt(m, m.cur)
  {
    hide Counted;
    assert TabsOf(m)[m.cur] == m.upage;
    assert TabsOf(n) == TabsOf(m)[c := m.upage];
    Enlist(n.pgtab, TabsOf(m), c, m.upage);
    forall s: nat | s < PTABSIZE && s != c && s != m.cur ensures SlotKept(m, n, s) {
      assert SpaceAt(n, s) == SpaceAt(m, s);
    }
  }

  lemma ForkView(m: Memory, n: Memory, c: nat, load: Key -> Space)
    requires Shape(m) && c < PTABSIZE && c != m.cur && RestOf(m, n, m.cur, c)
    requires n.cur == c && HasSpace(n.ptab[m.cur].status)
    requires SpaceAt(n, c) == SpaceAt(n, m.cur) == SpaceAt(m, m.cur) && Images(m, load)
    ensures View(n) == Plain(c, View(m).spaces[c := SpaceAt(m, m.cur)]) && Images(n, load)
  {
    hide SpaceAt, View, Shape;
    ViewIs(m);
    ViewIs(n);
    RestOfView(m, n, m.cur, c, load);
    assert View(n).spaces == View(m).spaces[c := SpaceAt(m, m.cur)];
  }

  /** The current process is saved with a status st, process b comes in. */
  function Switched(m: Memory, st: Status, b: nat): seq<Proc>
    requires m.cur < |m.ptab| && b < |m.ptab|
  {
    m.ptab[m.cur := m.ptab[m.cur].(status := st, ublk := m.upage)][b := m.ptab[b].(status := P_RUNNING)]
  }

  predicate Waits(s: Status) {
    s == P_READY || s == P_SLEEP || s == P_XSLEEP || s == P_PAUSE || s == P_WAIT
  }

  lemma SwitchRest(m: Memory, n: Memory, st: Status, b: nat)
    requires Inv(m) && b < PTABSIZE && b != m.cur && m.ptab[b].status == P_READY && Waits(st)
    requires n == m.(pgtab := n.pgtab, mmu := n.mmu, ptab := Switched(m, st, b), cur := b, upage := m.ptab[b].ublk)
    requires |n.pgtab| == |m.pgtab| && PgOk(n.pgtab)
    requires Counted(n.pgtab, TabsOf(m), []) && MmuOk(n.mmu, n.upage, n.pgtab)
    ensures Inv(n) && RestOf(m, n, m.cur, b) && SpaceAt(n, b) == SpaceAt(m, b) && SpaceAt(n, m.cur) == SpaceAt(m, m.cur)
  {
    hide Counted;
    assert TabsOf(n) == TabsOf(m);
    forall s: nat | s < PTABSIZE && s != b && s != m.cur ensures SlotKept(m, n, s) {
      assert SpaceAt(n, s) == SpaceAt(m, s);
    }
  }

  lemma SwitchKeeps(m: Memory, n: Memory, b: nat, load: Key -> Space)
    requires b < PTABSIZE && b != m.cur && RestOf(m, n, m.cur, b) && n.cur == b && Images(m, load)
    requires SpaceAt(n, b) == SpaceAt(m, b) && SpaceAt(n, m.cur) == SpaceAt(m, m.cur)
    requires m.ptab[b].status == P_READY && Waits(n.ptab[m.cur].status)
    ensures View(n) == Plain(b, View(m).spaces) && Images(n, load)
  {
    hide SpaceAt, View, Shape;
    ViewIs(m);
    ViewIs(n);
    RestOfView(m, n, m.cur, b, load);
    assert View(n).spaces == View(m).spaces;
  }

  function Exited(m: Memory, b: nat): seq<Proc>
    requires m.cur < |m.ptab| && b < |m.ptab|
  {
    m.ptab[m.cur := m.ptab[m.cur].(status := P_ZOMBIE)][b := m.ptab[b].(status := P_RUNNING)]
  }

  /** `doexit`: the current process becomes a ZOMBIE without pages, process b comes in. */
  lemma ExitRest(m: Memory, n: Memory, b: nat)
    requires Inv(m) && b < PTABSIZE && b != m.cur && m.ptab[b].status == P_READY
    requires n == m.(pgtab := n.pgtab, mmu := n.mmu, cur := b, upage := m.ptab[b].ublk, ptab := Exited(m, b))
    requires |n.pgtab| == |m.pgtab| && PgOk(n.pgtab)
    requires Counted(n.pgtab, TabsOf(m)[m.cur := []], []) && MmuOk(n.mmu, n.upage, n.pgtab)
    ensures Inv(n) && RestOf(m, n, m.cur, b) && SpaceAt(n, b) == SpaceAt(m, b)
  {
    hide Counted;
    assert TabsOf(n) == TabsOf(m)[m.cur := []];
    forall s: nat | s < PTABSIZE && s != b && s != m.cur ensures SlotKept(m, n, s) {
      assert SpaceAt(n, s) == SpaceAt(m, s);
    }
  }

  lemma ExitKeeps(m: Memory, n: Memory, b: nat, load: Key -> Space)
    requires Shape(m) && b < PTABSIZE && b != m.cur && m.ptab[b].status == P_READY && Images(m, load)
    requires RestOf(m, n, m.cur, b) && SpaceAt(n, b) == SpaceAt(m, b) && n.cur == b && n.ptab[m.cur].status == P_ZOMBIE
    ensures View(n) == Plain(b, View(m).spaces - {m.cur}) && Images(n, load)
  {
    hide SpaceAt, View, Shape;
    ViewIs(m);
    ViewIs(n);
    RestOfView(m, n, m.cur, b, load);
    assert View(n).spaces == View(m).spaces - {m.cur};
  }

  /** Changes of status that are no business of memory: wakeup, and reaping an exited child. */
  lemma StatusRest(m: Memory, n: Memory, s: nat, st: Status)
    requires Inv(m) && s < PTABSIZE && n == m.(ptab := m.ptab[s := m.ptab[s].(status := st)])
    requires (Waits(m.ptab[s].status) && st == P_READY) || (m.ptab[s].status == P_ZOMBIE && st == P_EMPTY)
    ensures Inv(n) && RestOf(m, n, s, s) && SpaceAt(n, s) == SpaceAt(m, s)
  {
    hide Counted, PgOk, MmuOk;
    assert TabsOf(n) == TabsOf(m);
    forall r: nat | r < PTABSIZE && r != s ensures SlotKept(m, n, r) {
      assert SpaceAt(n, r) == SpaceAt(m, r);
    }
  }

  lemma StatusKeeps(m: Memory, n: Memory, s: nat, load: Key -> Space)
    requires s < PTABSIZE && RestOf(m, n, s, s) && SpaceAt(n, s) == SpaceAt(m, s) && n.cur == m.cur && Images(m, load)
    requires HasSpace(n.ptab[s].status) == HasSpace(m.ptab[s].status) && n.ptab[s].status != P_ZOMBIE2
    ensures View(n) == View(m) && Images(n, load)
  {
    hide SpaceAt, View, Shape;
    ViewIs(m);
    ViewIs(n);
    RestOfView(m, n, s, s, load);
    assert View(n).spaces == View(m).spaces;
  }

  /** `execve` replaces the table of the current process. */
  lemma NewTableKeeps(m: Memory, n: Memory, t: Table)
    requires Inv(m) && n == m.(pgtab := n.pgtab, mmu := n.mmu, upage := t)
    requires |t| == ENTRIES && EntriesOk(t, |m.pgtab|)
    requires |n.pgtab| == |m.pgtab| && PgOk(n.pgtab) && MmuOk(n.mmu, t, n.pgtab)
    requires Counted(n.pgtab, TabsOf(m)[m.cur := []], t)
    ensures Inv(n) && Rest(m, n, m.cur) && SpaceAt(n, m.cur) == SpaceOf(t, m.mem)
  {
    hide Counted;
    assert TabsOf(n) == TabsOf(m)[m.cur := []][m.cur := t];
    Enlist(n.pgtab, TabsOf(m)[m.cur := []], m.cur, t);
    forall s: nat | s < PTABSIZE && s != m.cur ensures SlotKept(m, n, s) {
      assert SpaceAt(n, s) == SpaceAt(m, s);
    }
    assert TabsOf(n)[n.cur] == t;
  }

  /** `make_zombie`: slot z becomes an image of the current process. */
  lemma ImageKeeps(m: Memory, n: Memory, z: nat, key: Key, uid: nat)
    requires Inv(m) && z < PTABSIZE && z != m.cur && m.ptab[z].status == P_FORKING
    requires NoReal(TabsOf(m)[z]) && uid <= 32001
    requires n == m.(pgtab := n.pgtab, mmu := n.mmu, ptab := n.ptab)
    requires n.ptab == m.ptab[z := m.ptab[z].(key := key, uid := uid, ublk := m.upage)]
    requires |n.pgtab| == |m.pgtab| && PgOk(n.pgtab)
    requires Counted(n.pgtab, TabsOf(m), m.upage) && MmuOk(n.mmu, m.upage, n.pgtab)
    ensures Inv(n) && Rest(m, n, z) && SpaceAt(n, z) == SpaceAt(m, m.cur) == SpaceAt(n, m.cur)
  {
    hide Counted;
    assert TabsOf(m)[m.cur] == m.upage;
    assert TabsOf(n) == TabsOf(m)[z := m.upage];
    Enlist(n.pgtab, TabsOf(m), z, m.upage);
    forall s: nat | s < PTABSIZE && s != z ensures SlotKept(m, n, s) {
      assert SpaceAt(n, s) == SpaceAt(m, s);
    }
  }

  /** The tag of a slot that holds an image; the image itself stays. */
  lemma TagKeeps(m: Memory, n: Memory, z: nat, st: Status, uid: nat)
    requires Inv(m) && z < PTABSIZE && z != m.cur && uid <= 32001
    requires n == m.(ptab := m.ptab[z := m.ptab[z].(status := st, uid := uid)])
    requires (m.ptab[z].status == P_ZOMBIE2 && st == P_FORKING) || (m.ptab[z].status == P_FORKING && st == P_ZOMBIE2)
    ensures Inv(n) && Rest(m, n, z) && SpaceAt(n, z) == SpaceAt(m, z) && SpaceAt(n, n.cur) == SpaceAt(m, m.cur)
  {
    assert TabsOf(n) == TabsOf(m);
    forall s: nat | s < PTABSIZE && s != z ensures SlotKept(m, n, s) {
      assert SpaceAt(n, s) == SpaceAt(m, s);
    }
  }

  /** The current process gets the identity of the file it executes. */
  lemma KeyKeeps(m: Memory, n: Memory, key: Key)
    requires Inv(m) && n == m.(ptab := m.ptab[m.cur := m.ptab[m.cur].(key := key)])
    ensures Inv(n) && Rest(m, n, m.cur) && SpaceAt(n, m.cur) == SpaceAt(m, m.cur)
  {
    assert TabsOf(n) == TabsOf(m);
    forall s: nat | s < PTABSIZE && s != m.cur ensures SlotKept(m, n, s) {
      assert SpaceAt(n, s) == SpaceAt(m, s);
    }
  }

  /** At the end of `execve`: program pages never loaded become illegal. */
  function Sealed(t: Table): Table {
    seq(|t|, j requires 0 <= j < |t| => if j >= 8 && t[j] == Virgin then NoPage else t[j])
  }

  function SealedSpace(c: Space): Space {
    seq(|c|, j requires 0 <= j < |c| => if j >= 8 && c[j].Fresh? then Absent else c[j])
  }

  lemma SealKeeps(m: Memory, n: Memory)
    requires Inv(m) && n == m.(pgtab := n.pgtab, mmu := n.mmu, upage := Sealed(m.upage)) && |n.pgtab| == |m.pgtab|
    requires PgOk(n.pgtab) && Counted(n.pgtab, TabsOf(m), []) && MmuOk(n.mmu, n.upage, n.pgtab)
    ensures Inv(n) && Rest(m, n, m.cur) && SpaceAt(n, m.cur) == SealedSpace(SpaceAt(m, m.cur))
  {
    hide Counted;
    assert TabsOf(m)[m.cur] == m.upage;
    assert TabsOf(n) == TabsOf(m)[m.cur := Sealed(m.upage)];
    SealCounts(n.pgtab, TabsOf(m), m.cur);
    forall s: nat | s < PTABSIZE && s != m.cur ensures SlotKept(m, n, s) {
      assert SpaceAt(n, s) == SpaceAt(m, s);
    }
    assert SpaceAt(n, m.cur) == SealedSpace(SpaceAt(m, m.cur));
  }

  lemma SealCounts(pgtab: seq<Pg>, ts: seq<Table>, s: nat)
    requires s < |ts| && Counted(pgtab, ts, [])
    ensures Counted(pgtab, ts[s := Sealed(ts[s])], [])
  {
    forall p | 0 <= p < |pgtab| ensures Refs(ts[s := Sealed(ts[s])], p) == Refs(ts, p) {
      RefsSet(ts, s, Sealed(ts[s]), p);
      SealUses(ts[s], p);
    }
  }

  lemma {:induction false} SealUses(t: Table, p: nat)
    ensures Uses(Sealed(t), p) == Uses(t, p)
  {
    if t != [] {
      assert Sealed(t)[..|t| - 1] == Sealed(t[..|t| - 1]);
      SealUses(t[..|t| - 1], p);
    }
  }
}
