/** Page tables, page reference counts and the address spaces they stand for
    (MACHDEP.C): what the copy-on-write kernel is held against is a machine that gives
    every process pages of its own and copies them at `fork`. */
module PageTables {
  import opened Blocks
  import opened ProcStatus

  const ENTRIES := 16    // 8 data pages, 8 program pages
  const PAGE_SIZE := 8192

  type Page = s: seq<Byte> | |s| == 8192 witness seq(8192, _ => 0)

  function ZeroPage(): Page {
    seq<Byte>(8192, _ => 0)
  }

  /** An entry of `u_page`: NOPAGE, VIRGPAGE, or a page descriptor. */
  datatype Entry = NoPage | Virgin | Real(page: nat)

  type Table = seq<Entry>

  /** A page descriptor: physical page and write-protect bit of `pg_addr`, and `pg_refs`. */
  datatype Pg = Pg(frame: nat, wp: bool, refs: nat)

  datatype Mmu = Unmapped | Mapped(frame: nat, wp: bool)

  /** What identifies a program file: inode number, device and creation time. */
  datatype Key = Key(inode: int, dev: int, date: int)

  /** A process slot, as far as memory goes; ublk is the page table in the saved user block. */
  datatype Proc = Proc(status: Status, pid: nat, uid: nat, key: Key, ublk: Table)

  /** One entry of an address space: illegal, never touched, or bytes. */
  datatype Cell = Absent | Fresh | Bytes(data: Page)

  type Space = seq<Cell>

  /** How often a table names page p. */
  function Uses(t: Table, p: nat): nat {
    if t == [] then 0
    else Uses(t[..|t| - 1], p) + if t[|t| - 1] == Real(p) then 1 else 0
  }

  /** How often a list of tables names page p. */
  function Refs(ts: seq<Table>, p: nat): nat {
    if ts == [] then 0 else Refs(ts[..|ts| - 1], p) + Uses(ts[|ts| - 1], p)
  }

  lemma {:induction false} UsesAppend(t: Table, u: Table, p: nat)
    ensures Uses(t + u, p) == Uses(t, p) + Uses(u, p)
  {
    if u == [] {
      assert t + u == t;
    } else {
      assert (t + u)[..|t + u| - 1] == t + u[..|u| - 1];
      UsesAppend(t, u[..|u| - 1], p);
    }
  }

  lemma UsesOne(e: Entry, p: nat)
    ensures Uses([e], p) == if e == Real(p) then 1 else 0
  {
    assert [e][..0] == [];
  }

  lemma UsesSet(t: Table, j: nat, e: Entry, p: nat)
    requires j < |t|
    ensures Uses(t[j := e], p) + (if t[j] == Real(p) then 1 else 0) == Uses(t, p) + (if e == Real(p) then 1 else 0)
  {
    var a, b := t[..j], t[j + 1..];
    assert t == a + [t[j]] + b && t[j := e] == a + [e] + b;
    UsesAppend(a + [t[j]], b, p);
    UsesAppend(a, [t[j]], p);
    UsesAppend(a + [e], b, p);
    UsesAppend(a, [e], p);
    UsesOne(e, p);
    UsesOne(t[j], p);
  }

  lemma {:induction false} UsesNone(t: Table, p: nat)
    ensures Uses(t, p) == 0 <==> forall j :: 0 <= j < |t| ==> t[j] != Real(p)
  {
    if t != [] {
      UsesNone(t[..|t| - 1], p);
      assert forall j :: 0 <= j < |t| - 1 ==> t[..|t| - 1][j] == t[j];
    }
  }

  lemma {:induction false} RefsSet(ts: seq<Table>, s: nat, t: Table, p: nat)
    requires s < |ts|
    ensures Refs(ts[s := t], p) + Uses(ts[s], p) == Refs(ts, p) + Uses(t, p)
  {
    var n := |ts| - 1;
    if s == n {
      assert ts[s := t][..n] == ts[..n];
    } else {
      assert ts[s := t][..n] == ts[..n][s := t];
      RefsSet(ts[..n], s, t, p);
    }
  }

  lemma {:induction false} RefsAtLeast(ts: seq<Table>, s: nat, p: nat)
    requires s < |ts|
    ensures Uses(ts[s], p) <= Refs(ts, p)
  {
    if s < |ts| - 1 { RefsAtLeast(ts[..|ts| - 1], s, p); }
  }

  /** A page without references is in no table. */
  lemma UnusedPage(ts: seq<Table>, p: nat, s: nat, j: nat)
    requires s < |ts| && j < |ts[s]| && ts[s][j] == Real(p)
    ensures Refs(ts, p) >= 1
  {
    RefsAtLeast(ts, s, p);
    UsesNone(ts[s], p);
  }

  /** A page with one reference is in one place. */
  lemma SolePage(ts: seq<Table>, p: nat, s: nat, j: nat, r: nat, k: nat)
    requires Refs(ts, p) <= 1 && s < |ts| && j < |ts[s]| && ts[s][j] == Real(p)
    requires r < |ts| && k < |ts[r]| && ts[r][k] == Real(p)
    ensures r == s && k == j
  {
    var us := ts[s := ts[s][j := NoPage]];
    UsesSet(ts[s], j, NoPage, p);
    RefsSet(ts, s, ts[s][j := NoPage], p);
    assert Refs(us, p) == 0;
    if !(r == s && k == j) {
      assert us[r][k] == Real(p);
      UnusedPage(us, p, r, k);
    }
  }

  predicate EntriesOk(t: Table, n: nat) {
    forall j :: 0 <= j < |t| && t[j].Real? ==> t[j].page < n
  }

  predicate TablesOk(ts: seq<Table>, n: nat) {
    forall s :: 0 <= s < |ts| ==> (|ts[s]| == 0 || |ts[s]| == ENTRIES) && EntriesOk(ts[s], n)
  }

  /** The counts of all pages are the numbers of table entries naming them, with the
      entries `plus` counted though they are in no table. */
  ghost predicate Counted(pgtab: seq<Pg>, ts: seq<Table>, plus: Table) {
    forall p {:trigger pgtab[p]} :: 0 <= p < |pgtab| ==> pgtab[p].refs == Refs(ts, p) + Uses(plus, p)
  }

  /** Descriptors keep their physical page, and shared pages are write-protected. */
  predicate PgOk(pgtab: seq<Pg>) {
    forall p :: 0 <= p < |pgtab| ==> pgtab[p].frame == p && (pgtab[p].refs >= 2 ==> pgtab[p].wp)
  }

  /** The MMU maps the current table; what it lets the process write is not shared. */
  predicate MmuOk(mmu: seq<Mmu>, t: Table, pgtab: seq<Pg>) {
    && |mmu| == |t| == ENTRIES && EntriesOk(t, |pgtab|)
    && forall j :: 0 <= j < ENTRIES ==>
         if t[j].Real? then
           mmu[j].Mapped? && mmu[j].frame == t[j].page && (mmu[j].wp || pgtab[t[j].page].refs <= 1)
         else mmu[j] == Unmapped
  }

  predicate HasTable(s: Status) {
    s != P_EMPTY && s != P_ZOMBIE
  }

  /** The tables of all slots: the current process's is in `udata`. */
  function Tabs(ptab: seq<Proc>, cur: nat, upage: Table): (ts: seq<Table>)
    ensures |ts| == |ptab|
    ensures forall s :: 0 <= s < |ptab| ==>
      ts[s] == if !HasTable(ptab[s].status) then [] else if s == cur then upage else ptab[s].ublk
  {
    seq(|ptab|, s requires 0 <= s < |ptab| =>
      if !HasTable(ptab[s].status) then [] else if s == cur then upage else ptab[s].ublk)
  }

  function CellOf(e: Entry, mem: seq<Page>): Cell
    requires e.Real? ==> e.page < |mem|
  {
    match e
    case NoPage => Absent
    case Virgin => Fresh
    case Real(p) => Bytes(mem[p])
  }

  /** The address space that a table stands for. */
  function SpaceOf(t: Table, mem: seq<Page>): (c: Space)
    requires EntriesOk(t, |mem|)
    ensures |c| == |t|
    ensures forall j :: 0 <= j < |t| ==> c[j] == CellOf(t[j], mem)
  {
    seq(|t|, j requires 0 <= j < |t| => CellOf(t[j], mem))
  }

  /** Everything there is to the memory of the system. */
  datatype Memory = Memory(pgtab: seq<Pg>, mem: seq<Page>, ptab: seq<Proc>, cur: nat, upage: Table, mmu: seq<Mmu>)

  function TabsOf(m: Memory): seq<Table> {
    Tabs(m.ptab, m.cur, m.upage)
  }

  ghost predicate Shape(m: Memory) {
    && |m.pgtab| == |m.mem| && |m.ptab| == PTABSIZE
    && m.cur < PTABSIZE && m.ptab[m.cur].status == P_RUNNING
    && (forall s :: 0 <= s < PTABSIZE && s != m.cur ==> m.ptab[s].status != P_RUNNING)
    && (forall s :: 0 <= s < PTABSIZE ==> m.ptab[s].pid <= 32001)
    && (forall s :: 0 <= s < PTABSIZE && HasTable(m.ptab[s].status) ==> |m.ptab[s].ublk| == ENTRIES)
    && (forall s :: 0 <= s < PTABSIZE && m.ptab[s].status in {P_ZOMBIE2, P_FORKING} ==> m.ptab[s].uid <= 32001)
    && |m.upage| == |m.mmu| == ENTRIES
    && TablesOk(TabsOf(m), |m.mem|)
  }

  ghost predicate Inv(m: Memory) {
    && Shape(m)
    && PgOk(m.pgtab) && Counted(m.pgtab, TabsOf(m), [])
    && MmuOk(m.mmu, m.upage, m.pgtab)
  }

  /** The abstract machine: the address spaces of the processes, each on its own. */
  datatype Plain = Plain(cur: nat, spaces: map<nat, Space>)

  predicate HasSpace(s: Status) {
    HasTable(s) && s != P_ZOMBIE2
  }

  ghost function SpaceAt(m: Memory, s: nat): Space
    requires Shape(m) && s < PTABSIZE
  {
    assert EntriesOk(TabsOf(m)[s], |m.mem|);
    SpaceOf(TabsOf(m)[s], m.mem)
  }

  ghost function View(m: Memory): Plain
    requires Shape(m)
  {
    Plain(m.cur, map s: nat | s < PTABSIZE && HasSpace(m.ptab[s].status) :: SpaceAt(m, s))
  }

  /** Taking a table off the list. */
  lemma Unlist(pgtab: seq<Pg>, ts: seq<Table>, s: nat)
    requires s < |ts| && Counted(pgtab, ts, [])
    ensures Counted(pgtab, ts[s := []], ts[s])
  {
    forall p | 0 <= p < |pgtab| ensures pgtab[p].refs == Refs(ts[s := []], p) + Uses(ts[s], p) {
      RefsSet(ts, s, [], p);
    }
  }

  /** Putting counted entries on the list as a table. */
  lemma Enlist(pgtab: seq<Pg>, ts: seq<Table>, s: nat, t: Table)
    requires s < |ts| && Counted(pgtab, ts, t) && (forall j :: 0 <= j < |ts[s]| ==> !ts[s][j].Real?)
    ensures Counted(pgtab, ts[s := t], [])
  {
    forall p | 0 <= p < |pgtab| ensures pgtab[p].refs == Refs(ts[s := t], p) + Uses([], p) {
      RefsSet(ts, s, t, p);
      UsesNone(ts[s], p);
    }
  }

  /** A counted page goes into entry j of a table; what was there is now counted extra. */
  lemma Exchange(pgtab: seq<Pg>, ts: seq<Table>, s: nat, j: nat, e: Entry)
    requires s < |ts| && j < |ts[s]| && Counted(pgtab, ts, [e])
    ensures Counted(pgtab, ts[s := ts[s][j := e]], [ts[s][j]])
  {
    forall p | 0 <= p < |pgtab| ensures pgtab[p].refs == Refs(ts[s := ts[s][j := e]], p) + Uses([ts[s][j]], p) {
      RefsSet(ts, s, ts[s][j := e], p);
      UsesSet(ts[s], j, e, p);
      UsesOne(e, p);
      UsesOne(ts[s][j], p);
    }
  }

  /** One more, or one less, counted. */
  lemma CountOne(pgtab: seq<Pg>, ts: seq<Table>, plus: Table, e: Entry, p: nat, d: Pg)
    requires p < |pgtab| && e == Real(p) && Counted(pgtab, ts, plus) && d.refs == pgtab[p].refs + 1
    ensures Counted(pgtab[p := d], ts, plus + [e])
  {
    forall q | 0 <= q < |pgtab| ensures pgtab[p := d][q].refs == Refs(ts, q) + Uses(plus + [e], q) {
      UsesAppend(plus, [e], q);
      UsesOne(e, q);
    }
  }

  lemma UncountOne(pgtab: seq<Pg>, ts: seq<Table>, plus: Table, p: nat)
    requires p < |pgtab| && Counted(pgtab, ts, [Real(p)] + plus)
    ensures pgtab[p].refs >= 1
    ensures Counted(pgtab[p := pgtab[p].(refs := pgtab[p].refs - 1)], ts, plus)
  {
    forall q | 0 <= q < |pgtab| ensures pgtab[q].refs == Refs(ts, q) + Uses(plus, q) + (if q == p then 1 else 0) {
      UsesAppend([Real(p)], plus, q);
      UsesOne(Real(p), q);
    }
  }

  /** Entries that are no pages do not count. */
  lemma SkipOne(pgtab: seq<Pg>, ts: seq<Table>, plus: Table, e: Entry)
    requires !e.Real?
    ensures Counted(pgtab, ts, [e] + plus) == Counted(pgtab, ts, plus) == Counted(pgtab, ts, plus + [e])
  {
    forall p | 0 <= p < |pgtab|
      ensures Uses([e] + plus, p) == Uses(plus, p) == Uses(plus + [e], p)
    {
      UsesAppend([e], plus, p);
      UsesAppend(plus, [e], p);
      UsesOne(e, p);
    }
  }

  // What steps leave alone.

  /** A slot keeps its process and its address space, unless it held an image of a
      program that was given up for its pages. */
  ghost predicate SlotKept(m: Memory, n: Memory, s: nat)
    requires Shape(m) && Shape(n) && s < PTABSIZE
  {
    || (n.ptab[s].(ublk := m.ptab[s].ublk) == m.ptab[s] && SpaceAt(n, s) == SpaceAt(m, s))
    || (m.ptab[s].status == P_ZOMBIE2 && n.ptab[s].status == P_EMPTY)
  }

  /** All slots but s0 are kept. */
  ghost predicate Rest(m: Memory, n: Memory, s0: nat) {
    Shape(m) && Shape(n) && forall s: nat {:trigger SlotKept(m, n, s)} :: s < PTABSIZE && s != s0 ==> SlotKept(m, n, s)
  }

  ghost predicate Kept(m: Memory, n: Memory) {
    Rest(m, n, PTABSIZE) && n.cur == m.cur
  }

  lemma RestTransitive(l: Memory, m: Memory, n: Memory, s0: nat)
    requires Rest(l, m, s0) && Rest(m, n, s0)
    ensures Rest(l, n, s0)
  {
    hide Shape, SpaceAt;
    forall s: nat | s < PTABSIZE && s != s0 ensures SlotKept(l, n, s) {
      assert SlotKept(l, m, s) && SlotKept(m, n, s);
    }
  }

  lemma KeptRest(l: Memory, m: Memory, n: Memory, s0: nat)
    requires Kept(l, m) && Rest(m, n, s0)
    ensures Rest(l, n, s0)
    ensures s0 == l.cur ==> SpaceAt(l, s0) == SpaceAt(m, s0)
  {
    forall s: nat | s < PTABSIZE ensures s != s0 ==> SlotKept(l, n, s) {
      assert SlotKept(l, m, s) && (s != s0 ==> SlotKept(m, n, s));
    }
    assert s0 == l.cur ==> SlotKept(l, m, s0);
  }

  lemma KeptView(m: Memory, n: Memory)
    requires Kept(m, n)
    ensures View(n) == View(m)
  {
    forall s: nat | s < PTABSIZE
      ensures HasSpace(n.ptab[s].status) == HasSpace(m.ptab[s].status)
      ensures HasSpace(m.ptab[s].status) ==> SpaceAt(n, s) == SpaceAt(m, s)
    {
      assert SlotKept(m, n, s);
    }
  }

  lemma RestView(m: Memory, n: Memory)
    requires Rest(m, n, m.cur) && n.cur == m.cur
    ensures View(n) == Plain(m.cur, View(m).spaces[m.cur := SpaceAt(n, m.cur)])
  {
    forall s: nat | s < PTABSIZE && s != m.cur
      ensures HasSpace(n.ptab[s].status) == HasSpace(m.ptab[s].status)
      ensures HasSpace(m.ptab[s].status) ==> SpaceAt(n, s) == SpaceAt(m, s)
    {
      assert SlotKept(m, n, s);
    }
  }

  /** Every image kept for sharing is what its program file loads to. */
  ghost predicate Images(m: Memory, load: Key -> Space)
    requires Shape(m)
  {
    forall s: nat :: s < PTABSIZE && m.ptab[s].status == P_ZOMBIE2 ==> SpaceAt(m, s) == load(m.ptab[s].key)
  }

  lemma RestImages(m: Memory, n: Memory, s0: nat, load: Key -> Space)
    requires Rest(m, n, s0) && Images(m, load)
    requires s0 < PTABSIZE && n.ptab[s0].status == P_ZOMBIE2 ==> SpaceAt(n, s0) == load(n.ptab[s0].key)
    ensures Images(n, load)
  {
    hide SpaceAt;
    forall s: nat | s < PTABSIZE && n.ptab[s].status == P_ZOMBIE2 ensures SpaceAt(n, s) == load(n.ptab[s].key) {
      assert s != s0 ==> SlotKept(m, n, s);
    }
  }

  lemma KeptImages(m: Memory, n: Memory, load: Key -> Space)
    requires Kept(m, n) && Images(m, load)
    ensures Images(n, load)
  {
    RestImages(m, n, PTABSIZE, load);
  }

  // The steps.

  /** Giving up an image. */
  lemma EvictKeeps(m: Memory, n: Memory, z: nat)
    requires Inv(m) && z < PTABSIZE && m.ptab[z].status == P_ZOMBIE2
    requires n == m.(ptab := m.ptab[z := m.ptab[z].(status := P_EMPTY)], pgtab := n.pgtab)
    requires |n.pgtab| == |m.pgtab| && PgOk(n.pgtab) && Counted(n.pgtab, TabsOf(m)[z := []], [])
    requires forall p :: 0 <= p < |n.pgtab| ==> n.pgtab[p].refs <= m.pgtab[p].refs
    ensures Inv(n) && Kept(m, n)
  {
    assert TabsOf(n) == TabsOf(m)[z := []];
    forall s: nat | s < PTABSIZE ensures SlotKept(m, n, s) {}
  }

  /** The state with page q allocated and in no table yet. */
  ghost predicate Claimed(m: Memory, q: nat) {
    && Shape(m) && PgOk(m.pgtab) && MmuOk(m.mmu, m.upage, m.pgtab)
    && q < |m.pgtab| && m.pgtab[q] == Pg(q, false, 1)
    && Counted(m.pgtab, TabsOf(m), [Real(q)])
  }

  lemma ClaimKeeps(m: Memory, n: Memory, q: nat, data: Page)
    requires Inv(m) && q < |m.pgtab| && m.pgtab[q].refs == 0
    requires n == m.(pgtab := m.pgtab[q := Pg(q, false, 1)], mem := m.mem[q := data])
    ensures Claimed(n, q) && Kept(m, n)
  {
    forall s: nat, j: nat | s < PTABSIZE && j < |TabsOf(m)[s]| ensures TabsOf(m)[s][j] != Real(q) {
      if TabsOf(m)[s][j] == Real(q) { UnusedPage(TabsOf(m), q, s, j); }
    }
    assert TabsOf(n) == TabsOf(m);
    assert TabsOf(m)[m.cur] == m.upage;
    forall s: nat | s < PTABSIZE ensures SlotKept(m, n, s) {
      assert SpaceAt(n, s) == SpaceAt(m, s);
    }
    CountOne(m.pgtab, TabsOf(m), [], Real(q), q, Pg(q, false, 1));
  }

  /** The allocated page, filled with data, goes into entry j of the current table. */
  function WithPage(m: Memory, q: nat, j: nat, data: Page): Memory
    requires q < |m.mem| && j < |m.upage| && j < |m.mmu|
  {
    m.(mem := m.mem[q := data], upage := m.upage[j := Real(q)], mmu := m.mmu[j := Mapped(q, false)])
  }

  lemma ClaimedUnused(m: Memory, q: nat)
    requires Claimed(m, q)
    ensures forall s: nat, k: nat :: s < PTABSIZE && k < |TabsOf(m)[s]| ==> TabsOf(m)[s][k] != Real(q)
    ensures TabsOf(m)[m.cur] == m.upage
  {
    UsesOne(Real(q), q);
    forall s: nat, k: nat | s < PTABSIZE && k < |TabsOf(m)[s]| ensures TabsOf(m)[s][k] != Real(q) {
      if TabsOf(m)[s][k] == Real(q) { UnusedPage(TabsOf(m), q, s, k); }
    }
  }

  lemma PutPageCounts(m: Memory, q: nat, j: nat, data: Page)
    requires Claimed(m, q) && j < ENTRIES
    ensures var n := WithPage(m, q, j, data);
            Shape(n) && PgOk(n.pgtab) && MmuOk(n.mmu, n.upage, n.pgtab) && Counted(n.pgtab, TabsOf(n), [m.upage[j]])
  {
    hide Counted;
    var n := WithPage(m, q, j, data);
    ClaimedUnused(m, q);
    assert TabsOf(n) == TabsOf(m)[m.cur := m.upage[j := Real(q)]];
    Exchange(m.pgtab, TabsOf(m), m.cur, j, Real(q));
  }

  lemma PutPageKeeps(m: Memory, n: Memory, q: nat, j: nat, data: Page)
    requires Claimed(m, q) && j < ENTRIES && n == WithPage(m, q, j, data)
    ensures Shape(n) && PgOk(n.pgtab) && MmuOk(n.mmu, n.upage, n.pgtab) && Counted(n.pgtab, TabsOf(n), [m.upage[j]])
    ensures Rest(m, n, m.cur) && SpaceAt(n, m.cur) == SpaceAt(m, m.cur)[j := Bytes(data)]
  {
    hide Counted, MmuOk, PgOk;
    PutPageCounts(m, q, j, data);
    ClaimedUnused(m, q);
    forall s: nat | s < PTABSIZE && s != m.cur ensures SlotKept(m, n, s) {
      assert SpaceAt(n, s) == SpaceAt(m, s);
    }
    assert SpaceAt(n, m.cur) == SpaceAt(m, m.cur)[j := Bytes(data)];
  }

  /** Reference counts and protection change; tables and bytes do not. */
  lemma CountsKeep(m: Memory, n: Memory)
    requires Shape(m) && n == m.(pgtab := n.pgtab, mmu := n.mmu) && |n.pgtab| == |m.pgtab| && |n.mmu| == ENTRIES
    ensures Shape(n) && Kept(m, n) && TabsOf(n) == TabsOf(m)
  {
    forall s: nat | s < PTABSIZE ensures SlotKept(m, n, s) {
      assert SpaceAt(n, s) == SpaceAt(m, s);
    }
  }

  /** A store through the MMU changes one byte of the current process and nothing else. */
  lemma StoreKeeps(m: Memory, n: Memory, j: nat, data: Page)
    requires Inv(m) && j < ENTRIES && m.mmu[j].Mapped? && !m.mmu[j].wp
    requires m.mmu[j].frame < |m.mem| && n == m.(mem := m.mem[m.mmu[j].frame := data])
    ensures Inv(n) && Rest(m, n, m.cur) && SpaceAt(n, m.cur) == SpaceAt(m, m.cur)[j := Bytes(data)]
  {
    var q := m.mmu[j].frame;
    assert TabsOf(m)[m.cur] == m.upage && TabsOf(n) == TabsOf(m);
    forall s: nat, k: nat | s < PTABSIZE && k < |TabsOf(m)[s]| && TabsOf(m)[s][k] == Real(q)
      ensures s == m.cur && k == j
    {
      SolePage(TabsOf(m), q, m.cur, j, s, k);
    }
    forall s: nat | s < PTABSIZE && s != m.cur ensures SlotKept(m, n, s) {
      assert SpaceAt(n, s) == SpaceAt(m, s);
    }
    assert SpaceAt(n, m.cur) == SpaceAt(m, m.cur)[j := Bytes(data)];
  }

  lemma ViewIs(m: Memory)
    requires Shape(m)
    ensures View(m).cur == m.cur < PTABSIZE == |m.ptab| && m.ptab[m.cur].status == P_RUNNING
    ensures forall s: nat :: s in View(m).spaces <==> s < PTABSIZE && HasSpace(m.ptab[s].status)
    ensures forall s: nat :: s in View(m).spaces ==> View(m).spaces[s] == SpaceAt(m, s)
  {
  }

  /** To processes, the slot of an image is as good as empty. */
  function Class(s: Status): Status {
    if s == P_ZOMBIE2 then P_EMPTY else s
  }

  /** The statuses of all slots, as far as processes can tell. */
  function Classes(ptab: seq<Proc>): (cs: seq<Status>)
    ensures |cs| == |ptab| && forall s :: 0 <= s < |ptab| ==> cs[s] == Class(ptab[s].status)
  {
    seq(|ptab|, s requires 0 <= s < |ptab| => Class(ptab[s].status))
  }

  lemma RestClasses(m: Memory, n: Memory, s0: nat)
    requires Rest(m, n, s0) && s0 < PTABSIZE
    ensures Classes(n.ptab) == Classes(m.ptab)[s0 := Class(n.ptab[s0].status)]
  {
    hide SpaceAt;
    forall s: nat | s < PTABSIZE && s != s0 ensures Class(n.ptab[s].status) == Class(m.ptab[s].status) {
      assert SlotKept(m, n, s);
    }
  }

  lemma KeptClasses(m: Memory, n: Memory)
    requires Kept(m, n)
    ensures Classes(n.ptab) == Classes(m.ptab)
  {
    hide SpaceAt;
    forall s: nat | s < PTABSIZE ensures Class(n.ptab[s].status) == Class(m.ptab[s].status) {
      assert SlotKept(m, n, s);
    }
  }

  /** The current process runs before and after. */
  lemma CurClasses(m: Memory, n: Memory)
    requires Rest(m, n, m.cur) && n.cur == m.cur
    ensures Classes(n.ptab) == Classes(m.ptab)
  {
    RestClasses(m, n, m.cur);
    assert Classes(m.ptab)[m.cur] == P_RUNNING;
  }
}
