/** The process table (PROCESS.C, PROCASM.C, SCALL2.C): sleep and wakeup, signals, fork,
    exit, wait and the round-robin scheduler. The kernel is not preemptive: between two
    calls of the scheduler only interrupts run beside the current process, and they send
    signals and wake sleepers. Each method below is such a stretch of kernel code, with
    the interrupts that may fall into its windows given as arguments. */
module Processes {
  import opened Basics
  import opened ProcStatus

  const NSIGS := 16
  const SIGALRM := 14

  /** What a process waits for: nothing, the exit of a child (the address of its own
      slot), or another address in the kernel. */
  datatype Event = Null | Slot(s: nat) | Address(a: int)

  datatype Disposition = SIG_DFL | SIG_IGN | Handler

  /** A process table entry, with the signal part of the user block. */
  datatype Process = Process(status: Status, pid: nat, pptr: int, wait: Event, alarm: nat,
                             pending: set<nat>, ignored: set<nat>, vec: seq<Disposition>, cursig: nat, exitval: nat)

  type Table = seq<Process>

  predicate Shape(t: Table) {
    |t| == PTABSIZE && forall s :: 0 <= s < PTABSIZE ==> |t[s].vec| == NSIGS
  }

  predicate Live(s: Status) {
    s != P_EMPTY && s != P_ZOMBIE && s != P_ZOMBIE2
  }

  /** What a process waits for goes with its status. */
  predicate WaitsRight(p: Process, s: nat) {
    match p.status
    case P_RUNNING => p.wait == Null
    case P_READY => p.wait == Null
    case P_PAUSE => p.wait == Null
    case P_WAIT => p.wait == Slot(s)
    case P_SLEEP => p.wait != Null && p.wait != Slot(s)
    case P_XSLEEP => false
    case P_FORKING => false
    case _ => true
  }

  predicate Waiting(t: Table)
    requires Shape(t)
  {
    forall s: nat :: s < PTABSIZE ==> WaitsRight(t[s], s)
  }

  /** Running is the current process and nobody else; while the scheduler looks for a
      process, nobody. */
  predicate OneRunning(t: Table, cur: nat, idle: bool)
    requires Shape(t)
  {
    forall s: nat :: s < PTABSIZE ==> (t[s].status == P_RUNNING <==> !idle && s == cur)
  }

  /** Nobody waits for a child that has exited already. */
  predicate NoLostExit(t: Table)
    requires Shape(t)
  {
    forall s: nat, z: nat :: s < PTABSIZE && z < PTABSIZE && t[s].status == P_WAIT && t[z].status == P_ZOMBIE ==>
      t[z].pptr != s
  }

  predicate Real(s: Status) {
    Live(s) || s == P_ZOMBIE
  }

  /** Every process, exited or not, has a live parent or is a child of init, and was
      born after its parent. */
  predicate Parents(t: Table, born: seq<nat>)
    requires Shape(t)
  {
    && |born| == PTABSIZE && Real(t[0].status) && t[0].pptr == 0
    && (forall s: nat :: s < PTABSIZE && Real(t[s].status) ==>
         0 <= t[s].pptr < PTABSIZE && (t[s].pptr != 0 ==> Live(t[t[s].pptr].status)))
    && (forall s: nat :: 0 < s < PTABSIZE && Real(t[s].status) ==> born[t[s].pptr] < born[s])
  }

  predicate PidsUnique(t: Table)
    requires Shape(t)
  {
    && (forall s: nat :: s < PTABSIZE && t[s].status != P_EMPTY ==> 1 <= t[s].pid <= 32001)
    && (forall s: nat, r: nat :: s < r < PTABSIZE && t[s].status != P_EMPTY && t[r].status != P_EMPTY ==>
      t[s].pid != t[r].pid)
  }

  /** What holds wherever interrupts are enabled, also in the middle of kernel code:
      nobody but the current process runs, and the current process is alive. */
  predicate Core(t: Table, cur: nat, born: seq<nat>) {
    && Shape(t) && cur < PTABSIZE && Waiting(t) && NoLostExit(t) && Parents(t, born) && PidsUnique(t)
    && (forall s: nat :: s < PTABSIZE && s != cur ==> t[s].status != P_RUNNING)
  }

  predicate Inv(t: Table, cur: nat, idle: bool, born: seq<nat>) {
    Core(t, cur, born) && OneRunning(t, cur, idle)
  }

  /** What interrupts do: signals become pending, alarm clocks run down, and sleepers
      become READY. */
  predicate Woken(p: Process, q: Process) {
    && q.(alarm := p.alarm, pending := p.pending, status := p.status, wait := p.wait) == p
    && (|| (q.status == p.status && (q.wait == p.wait || (q.wait == Null && p.status !in {P_SLEEP, P_WAIT})))
        || (p.status in {P_SLEEP, P_PAUSE, P_WAIT} && q.status == P_READY && q.wait == Null))
  }

  predicate OnlyWakes(t: Table, u: Table)
    requires Shape(t) && Shape(u)
  {
    forall s: nat {:trigger t[s]} {:trigger u[s]} :: s < PTABSIZE ==> Woken(t[s], u[s])
  }

  lemma WakesTransitive(t: Table, u: Table, v: Table)
    requires Shape(t) && Shape(u) && Shape(v) && OnlyWakes(t, u) && OnlyWakes(u, v)
    ensures OnlyWakes(t, v)
  {
    forall s: nat | s < PTABSIZE ensures Woken(t[s], v[s]) {
      assert Woken(t[s], u[s]) && Woken(u[s], v[s]);
    }
  }

  /** Interrupts keep the invariant, at whatever point they come. */
  lemma WakesKeep(t: Table, u: Table, cur: nat, born: seq<nat>)
    requires Core(t, cur, born) && Shape(u) && OnlyWakes(t, u)
    ensures Core(u, cur, born)
    ensures forall idle :: OneRunning(t, cur, idle) ==> OneRunning(u, cur, idle)
    ensures forall s: nat :: s < PTABSIZE ==>
      Live(u[s].status) == Live(t[s].status) && (t[s].status == P_READY ==> u[s].status == P_READY)
  {
    forall s: nat | s < PTABSIZE
      ensures Live(u[s].status) == Live(t[s].status) && (u[s].status == P_ZOMBIE) == (t[s].status == P_ZOMBIE)
      ensures u[s].pptr == t[s].pptr && u[s].pid == t[s].pid && WaitsRight(u[s], s)
      ensures (u[s].status == P_RUNNING) == (t[s].status == P_RUNNING)
      ensures (u[s].status == P_WAIT ==> t[s].status == P_WAIT)
      ensures (u[s].status == P_EMPTY) == (t[s].status == P_EMPTY)
      ensures (t[s].status == P_READY ==> u[s].status == P_READY)
    {
      assert Woken(t[s], u[s]) && WaitsRight(t[s], s);
    }
  }

  datatype Interrupt = Signal(p: nat, sig: nat) | WakeUp(e: Event) | Second

  predicate InterruptsOk(irqs: seq<Interrupt>) {
    forall i :: 0 <= i < |irqs| ==>
      match irqs[i]
      case Signal(p, sig) => p < PTABSIZE && sig < NSIGS
      case WakeUp(e) => e != Null
      case Second => true
  }

  // What interrupts, signals and exits do to the table, slot by slot.

  /** A process that slept on event e is READY. */
  function Roused(p: Process, e: Event): Process {
    if p.wait == e && p.status in {P_SLEEP, P_WAIT} then p.(status := P_READY, wait := Null) else p
  }

  /** A child of slot c has slot g as its parent from now on. */
  function Adopted(p: Process, c: nat, g: nat): Process {
    if p.pptr == c && Real(p.status) then p.(pptr := g) else p
  }

  /** A signal sent to a process. */
  function SignalTo(p: Process, sig: nat): (q: Process)
    ensures q.vec == p.vec
  {
    if p.status in {P_EMPTY, P_ZOMBIE2} || sig in p.ignored then p
    else
      p.(status := if p.status in {P_PAUSE, P_WAIT, P_SLEEP} then P_READY else p.status, wait := Null,
         pending := p.pending + {sig})
  }

  /** A second of a process's alarm clock. */
  function TickTo(p: Process): (q: Process)
    ensures q.vec == p.vec
  {
    if p.alarm == 0 then p
    else
      var q := p.(alarm := p.alarm - 1);
      if q.alarm == 0 then SignalTo(q, SIGALRM) else q
  }

  function AfterIrq(t: Table, i: Interrupt): (u: Table)
    ensures |u| == |t| && forall s :: 0 <= s < |t| ==> u[s].vec == t[s].vec
  {
    seq(|t|, s requires 0 <= s < |t| =>
      match i
      case Signal(p, sig) => if s == p then SignalTo(t[s], sig) else t[s]
      case WakeUp(e) => Roused(t[s], e)
      case Second => TickTo(t[s]))
  }

  function AfterIrqs(t: Table, irqs: seq<Interrupt>): (u: Table)
    ensures |u| == |t| && forall s :: 0 <= s < |t| ==> u[s].vec == t[s].vec
  {
    if irqs == [] then t else AfterIrq(AfterIrqs(t, irqs[..|irqs| - 1]), irqs[|irqs| - 1])
  }

  /** The number of the caught signals below n that are pending, the highest of them, or
      the number noted before. */
  function LastCaught(p: Process, n: nat): nat
    requires |p.vec| == NSIGS && n <= NSIGS
  {
    if n <= 1 then p.cursig
    else if n - 1 in p.pending && p.vec[n - 1] == Handler then n - 1
    else LastCaught(p, n - 1)
  }

  function CaughtBelow(p: Process, n: nat): set<nat>
    requires |p.vec| == NSIGS && n <= NSIGS
  {
    set j | j in p.pending && 1 <= j < n && p.vec[j] == Handler
  }

  /** A process that has taken note of the caught signals below n. */
  function Checked(p: Process, n: nat): (q: Process)
    requires |p.vec| == NSIGS && n <= NSIGS
    ensures q.vec == p.vec
  {
    p.(pending := p.pending - CaughtBelow(p, n), cursig := LastCaught(p, n))
  }

  /** What is noted is the largest caught number, or what was noted before. */
  lemma {:induction false} LastCaughtIs(p: Process, n: nat)
    requires |p.vec| == NSIGS && n <= NSIGS
    ensures forall j :: j in CaughtBelow(p, n) ==> j <= LastCaught(p, n)
    ensures LastCaught(p, n) in CaughtBelow(p, n) || (CaughtBelow(p, n) == {} && LastCaught(p, n) == p.cursig)
  {
    if n > 1 {
      LastCaughtIs(p, n - 1);
      var more := if n - 1 in p.pending && p.vec[n - 1] == Handler then {n - 1} else {};
      assert CaughtBelow(p, n) == CaughtBelow(p, n - 1) + more;
    }
  }

  /** The lowest signal from j on that is pending and ends the process, or NSIGS. */
  function Deadly(p: Process, j: nat): (d: nat)
    requires |p.vec| == NSIGS && j <= NSIGS
    ensures j <= d <= NSIGS && (d < NSIGS ==> d in p.pending && p.vec[d] == SIG_DFL)
    ensures forall k :: j <= k < d && k in p.pending ==> p.vec[k] != SIG_DFL
    decreases NSIGS - j
  {
    if j == NSIGS || (j in p.pending && p.vec[j] == SIG_DFL) then j else Deadly(p, j + 1)
  }

  /** The process in slot c exits: it is a zombie, its children are its parent's, and, with
      interrupts before that, the parent is woken if it waits for a child. */
  function ExitTable(t: Table, c: nat, val: nat, irqs: seq<Interrupt>): (u: Table)
    requires c < |t|
    ensures |u| == |t|
  {
    if t[c].pptr < 0 then t
    else
      var v := seq(|t|, s requires 0 <= s < |t| =>
        if s == c then t[c].(status := P_ZOMBIE, exitval := val) else Adopted(t[s], c, t[c].pptr));
      AfterIrq(AfterIrqs(v, irqs), WakeUp(Slot(t[c].pptr)))
  }

  /** The process in slot c gives up the processor, or a pending signal ends it. */
  function SwapTable(t: Table, c: nat, irqs: seq<Interrupt>): Table
    requires Shape(t) && c < PTABSIZE
  {
    var d := Deadly(t[c], 1);
    if d < NSIGS then ExitTable(t[c := Checked(t[c], d)], c, d, irqs) else t[c := Checked(t[c], NSIGS)]
  }

  /** A process that has set what is to be done with a signal. */
  function WithVector(p: Process, sig: nat, d: Disposition): Process
    requires sig < |p.vec|
  {
    p.(vec := p.vec[sig := d], ignored := if d == SIG_IGN then p.ignored + {sig} else p.ignored - {sig})
  }

  /** The process in slot c has looked at its signals. */
  function Heard(t: Table, c: nat): Table
    requires Shape(t) && c < PTABSIZE
  {
    t[c := Checked(t[c], NSIGS)]
  }

  function Reaped(t: Table, z: nat): Table
    requires z < |t|
  {
    t[z := t[z].(status := P_EMPTY)]
  }

  /** The first exited child of the process in slot c, from slot s on. */
  function FirstExited(t: Table, c: nat, s: nat): (z: nat)
    ensures z >= s && (z < |t| ==> t[z].status == P_ZOMBIE && t[z].pptr == c)
    decreases |t| - s
  {
    if s >= |t| || (t[s].status == P_ZOMBIE && t[s].pptr == c) then s else FirstExited(t, c, s + 1)
  }

  /** A turn of `_wait` of the process in slot c: ended by a signal, or with a noted one, or
      with an exited child collected, or asleep. */
  function WaitTable(t: Table, c: nat, found: seq<Interrupt>, asleep: seq<Interrupt>, atExit: seq<Interrupt>): Table
    requires Shape(t) && c < PTABSIZE
  {
    var u := Heard(t, c);
    if Deadly(t[c], 1) < NSIGS then SwapTable(t, c, atExit)
    else if u[c].cursig != 0 then u
    else if FirstExited(t, c, 0) < PTABSIZE then Reaped(u, FirstExited(t, c, 0))
    else SleepTable(AfterIrqs(u, found), c, Slot(c), asleep, atExit)
  }

  /** The process in slot c sleeps on an event, with interrupts before it gives up the
      processor. */
  function SleepTable(t: Table, c: nat, e: Event, before: seq<Interrupt>, atExit: seq<Interrupt>): Table
    requires Shape(t) && c < PTABSIZE
  {
    SwapTable(AfterIrqs(t[c := t[c].(status := Sleeping(e, c), wait := e)], before), c, atExit)
  }

  // Slots and process numbers.

  function FirstEmpty(t: Table, s: nat): (c: nat)
    ensures c >= s && (c < |t| ==> t[c].status == P_EMPTY)
    decreases |t| - s
  {
    if s >= |t| || t[s].status == P_EMPTY then s else FirstEmpty(t, s + 1)
  }

  /** The table after an image was given up for its slot, if no slot is empty. */
  function Vacated(t: Table, victim: nat): Table
    requires victim < |t|
  {
    if FirstEmpty(t, 0) < |t| then t else t[victim := t[victim].(status := P_EMPTY)]
  }

  predicate PidInUse(t: Table, pid: nat) {
    exists s :: 0 <= s < |t| && t[s].status != P_EMPTY && t[s].pid == pid
  }

  /** The first number after `last`, around the end, that nobody uses. */
  predicate IsNextPid(t: Table, last: nat, pid: nat)
    requires last <= 32001
  {
    exists k: nat :: 0 < k <= PTABSIZE + 1 && pid == Candidate(last, k) && !PidInUse(t, pid)
                     && forall i :: 0 < i < k ==> PidInUse(t, Candidate(last, i))
  }

  /** A child is born in the first empty slot and runs; its parent is READY. */
  ghost predicate Forked(t: Table, c: nat, last: nat, victim: nat, u: Table, d: nat, pid: nat) {
    && Shape(t) && c < PTABSIZE && d < PTABSIZE && victim < PTABSIZE && last <= 32001
    && var v, p := Vacated(t, victim), t[c];
       && d == FirstEmpty(v, 0) && IsNextPid(v, last, pid)
       && u == v[c := p.(status := P_READY)][d := Process(P_RUNNING, pid, c, Null, 0, {}, p.ignored, p.vec, 0, 0)]
  }

  /** An image takes the first empty slot. */
  ghost predicate Imaged(t: Table, last: nat, victim: nat, u: Table, pid: nat) {
    && Shape(t) && victim < PTABSIZE && last <= 32001
    && var v := Vacated(t, victim);
       var d := FirstEmpty(v, 0);
       && d < PTABSIZE && IsNextPid(v, last, pid)
       && u == v[d := Process(P_ZOMBIE2, pid, -1, Null, 0, {}, {}, v[d].vec, 0, 0)]
  }

  predicate HasSlot(t: Table, victim: nat)
    requires victim < |t|
  {
    FirstEmpty(t, 0) < |t| || t[victim].status == P_ZOMBIE2
  }

  // The scheduler's order.

  /** How many slots the scheduler, standing at slot pp, looks at before slot q. */
  function Distance(pp: nat, q: nat): nat
    requires pp < PTABSIZE && q < PTABSIZE
  {
    if q > pp then q - pp - 1 else q - pp - 1 + PTABSIZE
  }

  /** One selection: who was READY at its start, where the scheduler stood, whom it picked. */
  datatype Pick = Pick(ready: set<nat>, from: nat, pick: nat)

  predicate IsNext(p: Pick) {
    && p.from < PTABSIZE && p.pick < PTABSIZE
    && forall q :: q in p.ready && q < PTABSIZE ==> Distance(p.from, p.pick) <= Distance(p.from, q)
  }

  /** The selections of a run, each from where the one before stopped. */
  predicate IsHistory(h: seq<Pick>) {
    && (forall i :: 0 <= i < |h| ==> IsNext(h[i]))
    && (forall i :: 0 < i < |h| ==> h[i].from == h[i - 1].pick)
  }

  /** Picking another READY process brings the scheduler nearer to q. */
  lemma Nearer(p: Pick, q: nat)
    requires IsNext(p) && q < PTABSIZE && q in p.ready && p.pick != q
    ensures Distance(p.pick, q) < Distance(p.from, q)
  {
  }

  /** Round robin: a process that stays READY is passed over at most 29 times. */
  lemma {:induction false} BoundedWaiting(h: seq<Pick>, q: nat)
    requires IsHistory(h) && q < PTABSIZE && forall i :: 0 <= i < |h| ==> q in h[i].ready && h[i].pick != q
    ensures |h| > 0 ==> |h| + Distance(h[|h| - 1].pick, q) <= Distance(h[0].from, q)
    ensures |h| <= PTABSIZE - 1
  {
    if |h| > 0 {
      var n := |h| - 1;
      BoundedWaiting(h[..n], q);
      Nearer(h[n], q);
    }
  }

  // Process numbers.

  /** The k-th process number tried after `nextpid` was last. */
  function Candidate(last: nat, k: nat): nat
    requires last <= 32001
  {
    if last + k <= 32001 then last + k else last + k - 32001
  }

  /** The status of a process asleep on an event. */
  function Sleeping(e: Event, cur: nat): Status {
    if e == Null then P_PAUSE else if e == Slot(cur) then P_WAIT else P_SLEEP
  }

  /** A signal is pending that ends the process when it looks at its signals. */
  predicate Doomed(p: Process)
    requires |p.vec| == NSIGS
  {
    exists j :: 1 <= j < NSIGS && j in p.pending && p.vec[j] == SIG_DFL
  }

  /** A caught signal has been noted, or will be when the process looks at its signals. */
  predicate Noted(p: Process)
    requires |p.vec| == NSIGS
  {
    p.cursig != 0 || exists j :: 1 <= j < NSIGS && j in p.pending && p.vec[j] == Handler
  }

  /** A process that looks at its signals changes in nothing else. */
  lemma CheckedKeeps(t: Table, u: Table, c: nat, n: nat, born: seq<nat>)
    requires Shape(t) && c < PTABSIZE && n <= NSIGS && u == t[c := Checked(t[c], n)]
    requires Core(t, c, born) && Live(t[c].status) && t[c].status != P_WAIT && WaitsRight(t[c], c)
    ensures Shape(u) && Core(u, c, born)
    ensures u == t[c := t[c].(pending := u[c].pending, cursig := u[c].cursig)]
  {
    hide NoLostExit, Parents, PidsUnique, CaughtBelow, LastCaught;
    StatusKeeps(t, u, c, c, c, born);
  }

  /** A live process changes its status and what it waits for. */
  lemma StatusKeeps(t: Table, u: Table, s0: nat, cur: nat, cur': nat, born: seq<nat>)
    requires Core(t, cur, born) && s0 < PTABSIZE && cur' < PTABSIZE && Live(t[s0].status)
    requires Shape(u) && u == t[s0 := u[s0]]
    requires u[s0].pid == t[s0].pid && u[s0].pptr == t[s0].pptr && Live(u[s0].status) && WaitsRight(u[s0], s0)
    requires u[s0].status == P_WAIT ==>
               t[s0].status == P_WAIT || forall z: nat :: z < PTABSIZE && t[z].status == P_ZOMBIE ==> t[z].pptr != s0
    requires cur' == cur || t[cur].status != P_RUNNING
    requires u[s0].status == P_RUNNING ==> s0 == cur'
    ensures Core(u, cur', born)
  {
    FamilyKeeps(t, u, s0, born);
    ExitsKept(t, u, s0);
    hide WaitsRight, NoLostExit, Parents, PidsUnique;
    assert Waiting(u);
  }

  lemma ExitsKept(t: Table, u: Table, s0: nat)
    requires Shape(t) && Shape(u) && NoLostExit(t) && s0 < PTABSIZE && u == t[s0 := u[s0]]
    requires u[s0].pptr == t[s0].pptr && Live(u[s0].status)
    requires u[s0].status == P_WAIT ==>
               t[s0].status == P_WAIT || forall z: nat :: z < PTABSIZE && t[z].status == P_ZOMBIE ==> t[z].pptr != s0
    ensures NoLostExit(u)
  {
  }

  lemma FamilyKeeps(t: Table, u: Table, s0: nat, born: seq<nat>)
    requires Shape(t) && Shape(u) && Parents(t, born) && PidsUnique(t) && s0 < PTABSIZE && u == t[s0 := u[s0]]
    requires u[s0].pid == t[s0].pid && u[s0].pptr == t[s0].pptr && Live(t[s0].status) && Live(u[s0].status)
    ensures Parents(u, born) && PidsUnique(u)
  {
    assert Parents(u, born);
  }

  /** What is left of table t when the process at x has exited to its parent at g. */
  ghost predicate ExitedTo(t: Table, v: Table, x: nat, g: nat)
    requires Shape(t) && Shape(v)
  {
    forall s: nat {:trigger v[s]} {:trigger t[s]} :: s < PTABSIZE ==>
      && v[s].pid == t[s].pid && (v[s].status == P_EMPTY) == (t[s].status == P_EMPTY)
      && Live(v[s].status) == (Live(t[s].status) && s != x)
      && (v[s].status == P_ZOMBIE) == (t[s].status == P_ZOMBIE || s == x)
      && v[s].pptr == (if s != x && t[s].pptr == x && Real(t[s].status) then g else t[s].pptr)
      && WaitsRight(v[s], s) && v[s].status != P_RUNNING && (v[s].status == P_WAIT ==> t[s].status == P_WAIT && s != g)
  }

  lemma ExitEntries(t: Table, u: Table, v: Table, x: nat, g: nat)
    requires Shape(t) && Shape(u) && Shape(v) && Waiting(t) && x < PTABSIZE && g < PTABSIZE && Live(t[x].status)
    requires forall s: nat :: s < PTABSIZE && s != x ==>
      t[s].status != P_RUNNING && u[s] == if t[s].pptr == x && Real(t[s].status) then t[s].(pptr := g) else t[s]
    requires u[x] == t[x].(status := P_ZOMBIE, exitval := u[x].exitval)
    requires OnlyWakes(u, v) && v[g].status != P_WAIT
    ensures ExitedTo(t, v, x, g)
  {
    forall s: nat | s < PTABSIZE
      ensures v[s].pid == t[s].pid && (v[s].status == P_EMPTY) == (t[s].status == P_EMPTY) && WaitsRight(v[s], s)
      ensures Live(v[s].status) == (Live(t[s].status) && s != x)
      ensures (v[s].status == P_ZOMBIE) == (t[s].status == P_ZOMBIE || s == x)
      ensures v[s].status != P_RUNNING && (v[s].status == P_WAIT ==> t[s].status == P_WAIT && s != g)
      ensures v[s].pptr == if s != x && t[s].pptr == x && Real(t[s].status) then g else t[s].pptr
    {
      assert Woken(u[s], v[s]) && WaitsRight(t[s], s);
    }
  }

  lemma ExitKeeps(t: Table, v: Table, x: nat, g: nat, born: seq<nat>)
    requires Core(t, x, born) && Live(t[x].status) && g == t[x].pptr && Shape(v) && ExitedTo(t, v, x, g)
    ensures Inv(v, x, true, born)
  {
    assert NoLostExit(v);
    assert PidsUnique(v);
    assert Parents(v, born);
  }

  lemma {:induction false} CandidatesDiffer(last: nat, i: nat, j: nat)
    requires last <= 32001 && 0 < i < j <= PTABSIZE + 1
    ensures Candidate(last, i) != Candidate(last, j) && 1 <= Candidate(last, i) <= 32001
  {
  }

  /** The slots that use one of the first k numbers after `last`. */
  predicate Blocked(t: Table, last: nat, k: nat, users: seq<nat>)
    requires last <= 32001
  {
    && |users| == k && |t| == PTABSIZE
    && forall i :: 0 <= i < k ==> users[i] < PTABSIZE && t[users[i]].pid == Candidate(last, i + 1)
  }

  /** Each number in use is used by another slot, so not more than 30 are tried in vain. */
  lemma FewTries(t: Table, last: nat, k: nat, users: seq<nat>)
    requires last <= 32001 && k <= PTABSIZE + 1 && Blocked(t, last, k, users)
    ensures k <= PTABSIZE
  {
    forall i, j | 0 <= i < j < k ensures users[i] != users[j] {
      CandidatesDiffer(last, i + 1, j + 1);
    }
    SetSize(users);
  }

  /** Different slots are no more than there are slots. */
  lemma SetSize(users: seq<nat>)
    requires forall i :: 0 <= i < |users| ==> users[i] < PTABSIZE
    requires forall i, j :: 0 <= i < j < |users| ==> users[i] != users[j]
    ensures |users| <= PTABSIZE
  {
    Distinct(users);
    Subset(set i | 0 <= i < |users| :: users[i], Upto(PTABSIZE));
  }

  lemma {:induction false} Distinct(users: seq<nat>)
    requires forall i, j :: 0 <= i < j < |users| ==> users[i] != users[j]
    ensures |set i | 0 <= i < |users| :: users[i]| == |users|
  {
    var used := set i | 0 <= i < |users| :: users[i];
    if users == [] {
      assert used == {};
    } else {
      var n := |users| - 1;
      Distinct(users[..n]);
      assert used == (set i | 0 <= i < n :: users[..n][i]) + {users[n]};
    }
  }

  lemma {:induction false} Subset(a: set<nat>, b: set<nat>)
    requires a <= b
    ensures |a| <= |b|
    decreases a
  {
    if a != {} {
      var x :| x in a;
      Subset(a - {x}, b - {x});
    }
  }

  /** A selection that began at slot start has looked at some slots, up to pp, and has
      not passed over any process that was READY when it began. */
  predicate Selecting(t: Table, pp: nat, start: nat, ready: set<nat>, tried: nat) {
    && start < PTABSIZE && |t| == PTABSIZE
    && (tried < PTABSIZE ==> pp == if start + tried >= PTABSIZE then start + tried - PTABSIZE else start + tried)
    && forall q :: q in ready ==> q < PTABSIZE && t[q].status == P_READY && Distance(start, q) >= tried
  }

  /** Interrupts leave READY processes READY. */
  lemma StillReady(t: Table, u: Table, pp: nat, start: nat, ready: set<nat>, tried: nat)
    requires Shape(t) && Shape(u) && OnlyWakes(t, u) && Selecting(t, pp, start, ready, tried)
    ensures Selecting(u, pp, start, ready, tried)
  {
    forall q | q in ready ensures u[q].status == P_READY {
      assert Woken(t[q], u[q]);
    }
  }

  /** The table after the interrupts of some looks of a selection. */
  function Looked(t: Table, looks: seq<seq<Interrupt>>): (u: Table)
    ensures |u| == |t| && forall s :: 0 <= s < |t| ==> u[s].vec == t[s].vec
  {
    if looks == [] then t else AfterIrqs(Looked(t, looks[..|looks| - 1]), looks[|looks| - 1])
  }

  /** The slot k places on. */
  function Further(pp: nat, k: nat): (q: nat)
    requires pp < PTABSIZE
    ensures q < PTABSIZE
  {
    if k == 0 then pp else Next(Further(pp, k - 1))
  }

  /** None of the slots looked at was READY. */
  ghost predicate PassedOver(t: Table, pp: nat, looks: seq<seq<Interrupt>>)
    requires |t| == PTABSIZE && pp < PTABSIZE
  {
    looks != [] ==>
      && PassedOver(t, pp, looks[..|looks| - 1])
      && Looked(t, looks)[Further(pp, |looks|)].status != P_READY
  }

  /** The look number k finds the first READY slot, which becomes RUNNING. */
  ghost predicate Picked(t: Table, pp: nat, looks: seq<seq<Interrupt>>, k: nat, u: Table, c: nat)
    requires |t| == PTABSIZE && pp < PTABSIZE && k < |looks|
  {
    var v := Looked(t, looks[..k + 1]);
    && PassedOver(t, pp, looks[..k]) && c == Further(pp, k + 1)
    && v[c].status == P_READY && u == v[c := v[c].(status := P_RUNNING)]
  }

  function Next(pp: nat): nat {
    if pp + 1 >= PTABSIZE then 0 else pp + 1
  }

  /** The next slot is as near as any process that was READY at the start. */
  lemma Nearest(t: Table, pp: nat, start: nat, ready: set<nat>, tried: nat)
    requires Selecting(t, pp, start, ready, tried) && pp < PTABSIZE
    ensures Next(pp) < PTABSIZE && IsNext(Pick(ready, start, Next(pp)))
    ensures t[Next(pp)].status != P_READY ==> Selecting(t, Next(pp), start, ready, tried + 1)
  {
  }

  lemma AllTried(t: Table, pp: nat, start: nat, ready: set<nat>, tried: nat)
    requires Selecting(t, pp, start, ready, tried) && tried >= PTABSIZE
    ensures ready == {}
  {
    assert forall q :: q in ready ==> q < PTABSIZE && Distance(start, q) < PTABSIZE;
  }

  /** While the scheduler looks for a process nobody runs. */
  lemma NobodyRuns(t: Table, cur: nat)
    requires Shape(t) && OneRunning(t, cur, true)
    ensures forall s: nat :: s < PTABSIZE ==> t[s].status != P_RUNNING
  {
  }

  class Kernel {
    var ptab: Table
    var cur: nat            // udata.u_ptab
    var idle: bool          // in the loop of getproc
    var pp: nat             // its static cursor
    var nextpid: nat
    ghost var born: seq<nat>
    ghost var clock: nat
    ghost var history: seq<Pick>

    ghost var start: nat         // the selection under way: where it began,
    ghost var ready: set<nat>    // who was READY then,
    ghost var tried: nat         // and how many slots it has looked at

    ghost predicate Rest()
      reads this`pp, this`nextpid, this`born, this`clock, this`history
    {
      && nextpid <= 32001 && pp < PTABSIZE
      && |born| == PTABSIZE && (forall s :: 0 <= s < PTABSIZE ==> born[s] < clock)
      && IsHistory(history)
    }

    ghost predicate Linked()
      reads this`history, this`pp
    {
      history != [] ==> history[|history| - 1].pick == pp
    }

    ghost predicate Valid()
      reads this
    {
      && Inv(ptab, cur, idle, born) && Rest()
      && (idle ==> Selecting(ptab, pp, start, ready, tried))
      && (history != [] ==> history[|history| - 1].pick == if idle then start else pp)
    }

    /** The beginning of a selection. */
    ghost method Select()
      requires Inv(ptab, cur, true, born) && idle && Rest() && Linked()
      modifies this`start, this`ready, this`tried
      ensures Valid() && ready == Ready(ptab)
    {
      hide NoLostExit, Parents, PidsUnique, Waiting, OneRunning, IsHistory;
      start, ready, tried := pp, Ready(ptab), 0;
    }

    /** `wakeup`: exactly the processes waiting for the event become READY. */
    method Wakeup(e: Event)
      requires Shape(ptab) && Waiting(ptab) && e != Null
      modifies this`ptab
      ensures Shape(ptab) && OnlyWakes(old(ptab), ptab) && Waiting(ptab)
      ensures e.Slot? && e.s < PTABSIZE ==> ptab[e.s].status != P_WAIT
      ensures forall s: nat :: s < PTABSIZE ==>
        ptab[s] == Roused(old(ptab)[s], e)
    {
      for p := 0 to PTABSIZE
        invariant Shape(ptab)
        invariant forall s: nat :: p <= s < PTABSIZE ==> ptab[s] == old(ptab)[s]
        invariant forall s: nat :: s < p ==>
          ptab[s] == Roused(old(ptab)[s], e)
      {
        var st := ptab[p].status;
        assert WaitsRight(old(ptab)[p], p);
        if st != P_EMPTY && st != P_RUNNING && st != P_ZOMBIE2 && st != P_ZOMBIE && ptab[p].wait == e {
          ptab := ptab[p := ptab[p].(wait := Null, status := P_READY)];
        }
      }
      forall s: nat | s < PTABSIZE ensures Woken(old(ptab)[s], ptab[s]) && WaitsRight(ptab[s], s) {
        assert WaitsRight(old(ptab)[s], s);
      }
    }

    /** `ssig`. */
    method Ssig(p: nat, sig: nat)
      requires Shape(ptab) && Waiting(ptab) && p < PTABSIZE
      modifies this`ptab
      ensures Shape(ptab) && Waiting(ptab) && OnlyWakes(old(ptab), ptab)
      ensures ptab == old(ptab)[p := SignalTo(old(ptab)[p], sig)]
      ensures old(ptab)[p].status !in {P_EMPTY, P_ZOMBIE2} && sig !in old(ptab)[p].ignored ==>
                ptab[p].pending == old(ptab)[p].pending + {sig} && ptab[p].status !in {P_PAUSE, P_WAIT, P_SLEEP}
      ensures old(ptab)[p].status in {P_EMPTY, P_ZOMBIE2} || sig in old(ptab)[p].ignored ==> ptab == old(ptab)
    {
      assert WaitsRight(ptab[p], p);
      var st := ptab[p].status;
      if st == P_EMPTY || st == P_ZOMBIE2 || sig in ptab[p].ignored {
        return;
      }
      if st == P_PAUSE || st == P_WAIT || st == P_SLEEP {
        ptab := ptab[p := ptab[p].(status := P_READY)];
      }
      ptab := ptab[p := ptab[p].(wait := Null, pending := ptab[p].pending + {sig})];
    }

    /** The once-a-second part of the clock interrupt: alarm clocks. */
    method Alarms()
      requires Shape(ptab) && Waiting(ptab)
      modifies this`ptab
      ensures Shape(ptab) && Waiting(ptab) && OnlyWakes(old(ptab), ptab)
      ensures forall s :: 0 <= s < PTABSIZE ==> ptab[s] == TickTo(old(ptab)[s])
    {
      for p := 0 to PTABSIZE
        invariant Shape(ptab) && Waiting(ptab) && OnlyWakes(old(ptab), ptab)
        invariant forall s :: 0 <= s < PTABSIZE ==> ptab[s] == if s < p then TickTo(old(ptab)[s]) else old(ptab)[s]
      {
        if ptab[p].alarm != 0 {
          ghost var t := ptab;
          ptab := ptab[p := ptab[p].(alarm := ptab[p].alarm - 1)];
          forall s: nat | s < PTABSIZE ensures WaitsRight(ptab[s], s) && Woken(t[s], ptab[s]) {
            assert WaitsRight(t[s], s);
          }
          WakesTransitive(old(ptab), t, ptab);
          if ptab[p].alarm == 0 {
            ghost var u := ptab;
            Ssig(p, SIGALRM);
            WakesTransitive(old(ptab), u, ptab);
          }
        }
      }
    }

    /** Some interrupts. */
    method Interrupts(irqs: seq<Interrupt>)
      requires Shape(ptab) && Waiting(ptab) && InterruptsOk(irqs)
      modifies this`ptab
      ensures Shape(ptab) && Waiting(ptab) && OnlyWakes(old(ptab), ptab)
      ensures ptab == AfterIrqs(old(ptab), irqs)
    {
      for i := 0 to |irqs|
        invariant Shape(ptab) && Waiting(ptab) && OnlyWakes(old(ptab), ptab)
        invariant ptab == AfterIrqs(old(ptab), irqs[..i])
      {
        ghost var t := ptab;
        match irqs[i] {
          case Signal(p, sig) => Ssig(p, sig);
          case WakeUp(e) => Wakeup(e);
          case Second => Alarms();
        }
        WakesTransitive(old(ptab), t, ptab);
        assert ptab == AfterIrq(t, irqs[i]);
        assert irqs[..i + 1][..i] == irqs[..i];
      }
      assert irqs[..|irqs|] == irqs;
    }

    /** `chksigs`, up to the point where a signal ends the process: the number of that
        signal, or 0. Caught signals are taken note of in `cursig`. */
    method Chksigs() returns (deadly: nat)
      requires Shape(ptab) && cur < PTABSIZE
      modifies this`ptab
      ensures Shape(ptab)
      ensures deadly < NSIGS && (deadly != 0 <==> Doomed(old(ptab)[cur]))
      ensures Deadly(old(ptab)[cur], 1) == if deadly == 0 then NSIGS else deadly
      ensures ptab == old(ptab)[cur := Checked(old(ptab)[cur], if deadly == 0 then NSIGS else deadly)]
      ensures deadly == 0 ==> (ptab[cur].cursig != 0 <==> Noted(old(ptab)[cur]))
      ensures deadly != 0 ==> deadly in old(ptab)[cur].pending && old(ptab)[cur].vec[deadly] == SIG_DFL
    {
      hide Checked, CaughtBelow, LastCaught, Noted, Doomed, Deadly;
      deadly := 0;
      ghost var t, p := ptab, ptab[cur];
      CheckedEnds(p);
      for j := 1 to NSIGS
        invariant ptab == t[cur := Checked(p, j)] && Deadly(p, 1) == Deadly(p, j)
      {
        CheckedMore(p, j);
        DeadlyFrom(p, j);
        var q := ptab[cur];
        if j in q.pending {
          if q.vec[j] == SIG_DFL {
            return j;
          }
          if q.vec[j] != SIG_IGN {
            ptab := ptab[cur := q.(pending := q.pending - {j}, cursig := j)];
          }
        }
      }
    }

    lemma CheckedEnds(p: Process)
      requires |p.vec| == NSIGS
      ensures Checked(p, 1) == p && Deadly(p, NSIGS) == NSIGS
      ensures Doomed(p) <==> Deadly(p, 1) < NSIGS
      ensures Checked(p, NSIGS).cursig != 0 <==> Noted(p)
    {
      LastCaughtIs(p, NSIGS);
      assert CaughtBelow(p, 1) == {} && p.pending - {} == p.pending;
    }

    lemma DeadlyFrom(p: Process, j: nat)
      requires |p.vec| == NSIGS && 1 <= j < NSIGS
      ensures Deadly(p, j) == if j in p.pending && p.vec[j] == SIG_DFL then j else Deadly(p, j + 1)
    {
    }

    lemma CheckedMore(p: Process, j: nat)
      requires |p.vec| == NSIGS && 1 <= j < NSIGS
      ensures j in Checked(p, j).pending <==> j in p.pending
      ensures Checked(p, j + 1) ==
              if j in p.pending && p.vec[j] == Handler
              then Checked(p, j).(pending := Checked(p, j).pending - {j}, cursig := j)
              else Checked(p, j)
    {
      assert CaughtBelow(p, j + 1) ==
             CaughtBelow(p, j) + if j in p.pending && p.vec[j] == Handler then {j} else {};
    }

    lemma HasParent(t: Table, s: nat, born: seq<nat>)
      requires Shape(t) && Parents(t, born) && s < PTABSIZE && Real(t[s].status)
      ensures 0 <= t[s].pptr < PTABSIZE
    {
    }

    lemma ZombieWaits(t: Table, u: Table, x: nat)
      requires Shape(t) && Waiting(t) && x < PTABSIZE && Shape(u) && u == t[x := u[x]] && u[x].status == P_ZOMBIE
      ensures Waiting(u)
    {
      forall s: nat | s < PTABSIZE ensures WaitsRight(u[s], s) {
        assert WaitsRight(t[s], s);
      }
    }

    /** The loop in `doexit` that hands the children of the current process to its parent. */
    method Reparent(g: nat)
      requires Shape(ptab) && Waiting(ptab) && cur < PTABSIZE
      modifies this`ptab
      ensures Shape(ptab) && Waiting(ptab)
      ensures forall s: nat :: s < PTABSIZE ==>
        ptab[s] == if s != cur then Adopted(old(ptab)[s], cur, g) else old(ptab)[s]
    {
      for p := 0 to PTABSIZE
        invariant Shape(ptab)
        invariant forall s: nat :: s < PTABSIZE ==>
          ptab[s] == if s < p && s != cur then Adopted(old(ptab)[s], cur, g) else old(ptab)[s]
      {
        var st := ptab[p].status;
        if st != P_EMPTY && st != P_ZOMBIE2 && ptab[p].pptr == cur && p != cur {
          ptab := ptab[p := ptab[p].(pptr := g)];
        }
      }
      forall s: nat | s < PTABSIZE ensures WaitsRight(ptab[s], s) {
        assert WaitsRight(old(ptab)[s], s);
      }
    }

    lemma ExitTableIs(t: Table, u: Table, w: Table, c: nat, val: nat, g: nat, irqs: seq<Interrupt>)
      requires c < |t| == |u| == |w| && t[c].pptr == g
      requires u[c] == t[c].(status := P_ZOMBIE, exitval := val)
      requires forall s :: 0 <= s < |t| && s != c ==> u[s] == Adopted(t[s], c, g)
      requires forall s :: 0 <= s < |t| ==> w[s] == Roused(AfterIrqs(u, irqs)[s], Slot(g))
      ensures w == ExitTable(t, c, val, irqs)
    {
      hide AfterIrqs, Roused, Adopted;
      assert u == seq(|t|, s requires 0 <= s < |t| =>
        if s == c then t[c].(status := P_ZOMBIE, exitval := val) else Adopted(t[s], c, t[c].pptr));
      assert w == AfterIrq(AfterIrqs(u, irqs), WakeUp(Slot(g)));
    }

    /** `doexit`, with the interrupts that come before it wakes the parent. The exited
        child and its children are handed to its parent, who is then not waiting. */
    method Exit(val: nat, irqs: seq<Interrupt>)
      requires Core(ptab, cur, born) && Rest() && Linked() && Live(ptab[cur].status) && InterruptsOk(irqs)
      modifies this`ptab, this`idle, this`start, this`ready, this`tried
      ensures Valid() && idle
      ensures ptab == ExitTable(old(ptab), cur, val, irqs)
      ensures ptab[cur].status == P_ZOMBIE && ptab[cur].exitval == val && ptab[cur].pptr == old(ptab)[cur].pptr
      ensures forall s: nat :: s < PTABSIZE && s != cur ==>
        ptab[s].pptr == Adopted(old(ptab)[s], cur, old(ptab)[cur].pptr).pptr
    {
      hide NoLostExit, Parents, PidsUnique, ExitedTo, WaitsRight, IsHistory, ExitTable, AfterIrqs, Roused;
      HasParent(ptab, cur, born);
      var g := ptab[cur].pptr;
      ghost var t := ptab;
      ptab := ptab[cur := ptab[cur].(exitval := val)];
      ptab := ptab[cur := ptab[cur].(status := P_ZOMBIE)];
      ZombieWaits(t, ptab, cur);
      Reparent(g);
      ghost var u := ptab;
      Interrupts(irqs);
      ghost var v := ptab;
      Wakeup(Slot(g));
      ExitTableIs(old(ptab), u, ptab, cur, val, g, irqs);
      idle := true;
      WakesTransitive(u, v, ptab);
      ExitEntries(old(ptab), u, ptab, cur, g);
      ExitKeeps(old(ptab), ptab, cur, g, born);
      Select();
    }

    /** `swapout`, up to the loop of `getproc`: a pending signal may end the process first. */
    method Swapout(irqs: seq<Interrupt>)
      requires Core(ptab, cur, born) && Rest() && Linked() && Live(ptab[cur].status)
      requires ptab[cur].status != P_RUNNING && InterruptsOk(irqs)
      modifies this`ptab, this`idle, this`start, this`ready, this`tried
      ensures Valid() && idle
      ensures Shape(old(ptab)) && ptab == SwapTable(old(ptab), cur, irqs)
    {
      hide NoLostExit, Parents, PidsUnique, ExitedTo;
      ghost var t := ptab;
      var deadly := Chksigs();
      assert WaitsRight(t[cur], cur);
      StatusKeeps(t, ptab, cur, cur, cur, born);
      if deadly != 0 {
        Exit(deadly, irqs);
      } else {
        idle := true;
        Select();
      }
    }

    /** `psleep`. Sleeping on one's own slot is `wait`, for which there must not be an
        exited child already. */
    method Psleep(e: Event, before: seq<Interrupt>, atExit: seq<Interrupt>)
      requires Valid() && !idle && InterruptsOk(before) && InterruptsOk(atExit)
      requires e == Slot(cur) ==> forall z: nat :: z < PTABSIZE && ptab[z].status == P_ZOMBIE ==> ptab[z].pptr != cur
      modifies this`ptab, this`idle, this`start, this`ready, this`tried
      ensures Valid() && idle
      ensures Shape(old(ptab)) && ptab == SleepTable(old(ptab), cur, e, before, atExit)
    {
      hide NoLostExit, Parents, PidsUnique, ExitedTo;
      if ptab[cur].status != P_RUNNING {
        assert false;
      }
      ghost var t := ptab;
      var st := Sleeping(e, cur);
      ptab := ptab[cur := ptab[cur].(status := st, wait := e)];
      StatusKeeps(t, ptab, cur, cur, cur, born);
      ghost var u := ptab;
      Interrupts(before);
      WakesKeep(u, ptab, cur, born);
      assert Woken(u[cur], ptab[cur]);
      Swapout(atExit);
    }

    /** The clock takes the processor away from a user program, or the kernel gives it up
        at the end of a system call. */
    method Preempt(atExit: seq<Interrupt>)
      requires Valid() && !idle && InterruptsOk(atExit)
      modifies this`ptab, this`idle, this`start, this`ready, this`tried
      ensures Valid() && idle
      ensures Shape(old(ptab))
      ensures ptab == SwapTable(old(ptab)[cur := old(ptab)[cur].(status := P_READY)], cur, atExit)
    {
      hide NoLostExit, Parents, PidsUnique, ExitedTo;
      ghost var t := ptab;
      ptab := ptab[cur := ptab[cur].(status := P_READY)];
      assert WaitsRight(t[cur], cur);
      StatusKeeps(t, ptab, cur, cur, cur, born);
      Swapout(atExit);
    }

    /** `getproc` and the swap to what it finds. It looks at one slot after another, with
        interrupts in between; the source goes on for ever, this method for as long as
        irqs does. One pass of the table is enough if some process is READY, since the
        selection began or only since this call: one that an interrupt woke meanwhile. */
    method Getproc(irqs: seq<seq<Interrupt>>) returns (found: bool)
      requires Valid() && idle && forall k :: 0 <= k < |irqs| ==> InterruptsOk(irqs[k])
      modifies this`ptab, this`idle, this`cur, this`pp, this`history, this`tried
      ensures Valid() && idle == !found
      ensures Shape(old(ptab)) && Shape(ptab)
      ensures old(pp) < PTABSIZE
      ensures found ==> exists k :: 0 <= k < |irqs| && Picked(old(ptab), old(pp), irqs, k, ptab, cur)
      ensures !found ==> PassedOver(old(ptab), old(pp), irqs) && ptab == Looked(old(ptab), irqs) && cur == old(cur)
      ensures found ==> cur == pp && history == old(history) + [Pick(ready, start, pp)]
      ensures !found ==> history == old(history)
      ensures old(tried) + |irqs| >= PTABSIZE && ready != {} ==> found
      ensures |irqs| >= PTABSIZE && Ready(old(ptab)) != {} ==> found
    {
      hide Inv, Rest, Ready, Selecting, OnlyWakes, AfterIrqs;
      ghost var t0, from, now := ptab, pp, Ready(ptab);
      NobodyWoken();
      NewSelection();
      for k := 0 to |irqs|
        invariant Valid() && idle && history == old(history) && tried == old(tried) + k
        invariant Selecting(ptab, pp, from, now, k) && cur == old(cur)
        invariant Shape(t0) && from < PTABSIZE && pp == Further(from, k)
        invariant PassedOver(t0, from, irqs[..k]) && ptab == Looked(t0, irqs[..k])
      {
        ghost var was := ptab;
        found := Look(irqs[k], from, now, k);
        LookedMore(t0, from, irqs, k);
        if found {
          assert Picked(t0, from, irqs, k, ptab, cur);
          return;
        }
      }
      found := false;
      assert irqs[..|irqs|] == irqs;
      if tried >= PTABSIZE { AllTried(ptab, pp, start, ready, tried); }
      if |irqs| >= PTABSIZE { AllTried(ptab, pp, from, now, |irqs|); }
    }

    lemma LookedMore(t: Table, pp: nat, looks: seq<seq<Interrupt>>, k: nat)
      requires |t| == PTABSIZE && pp < PTABSIZE && k < |looks| && PassedOver(t, pp, looks[..k])
      ensures Looked(t, looks[..k + 1]) == AfterIrqs(Looked(t, looks[..k]), looks[k])
      ensures Looked(t, looks[..k + 1])[Further(pp, k + 1)].status != P_READY ==> PassedOver(t, pp, looks[..k + 1])
    {
      assert looks[..k + 1][..k] == looks[..k];
    }

    lemma NobodyWoken()
      requires Valid()
      ensures Shape(ptab) && pp < PTABSIZE
    {
    }

    /** Whoever is READY now has not been passed over since now. */
    lemma NewSelection()
      requires Valid()
      ensures Selecting(ptab, pp, pp, Ready(ptab), 0)
    {
    }

    /** One round of the loop of `getproc`. */
    method Look(irqs: seq<Interrupt>, ghost from: nat, ghost now: set<nat>, ghost k: nat)
      returns (found: bool)
      requires Valid() && idle && InterruptsOk(irqs) && Selecting(ptab, pp, from, now, k)
      modifies this`ptab, this`idle, this`cur, this`pp, this`history, this`tried
      ensures Valid() && idle == !found
      ensures Shape(ptab) && old(pp) < PTABSIZE && pp == Next(old(pp)) && |old(ptab)| == PTABSIZE
      ensures var u := AfterIrqs(old(ptab), irqs);
              && (found <==> u[pp].status == P_READY)
              && ptab == if found then u[pp := u[pp].(status := P_RUNNING)] else u
      ensures !found ==> cur == old(cur)
      ensures found ==> cur == pp && history == old(history) + [Pick(ready, start, pp)]
      ensures !found ==> history == old(history) && tried == old(tried) + 1 && Selecting(ptab, pp, from, now, k + 1)
    {
      hide NoLostExit, Parents, PidsUnique, IsHistory, IsNext, Distance, OnlyWakes, Ready, OneRunning, Waiting,
           Selecting;
      ghost var t := ptab;
      Interrupts(irqs);
      WakesKeep(t, ptab, cur, born);
      StillReady(t, ptab, pp, start, ready, tried);
      StillReady(t, ptab, pp, from, now, k);
      Nearest(ptab, pp, start, ready, tried);
      Nearest(ptab, pp, from, now, k);
      NobodyRuns(ptab, cur);
      pp := if pp + 1 >= PTABSIZE then 0 else pp + 1;
      if ptab[pp].status == P_RUNNING {
        assert false;
      }
      found := ptab[pp].status == P_READY;
      if found {
        Swapin();
      } else {
        tried := tried + 1;
      }
    }

    /** `swapin` of the process that the scheduler found. */
    method Swapin()
      requires Inv(ptab, cur, true, born) && Rest() && pp < PTABSIZE && ptab[pp].status == P_READY
      requires IsNext(Pick(ready, start, pp)) && (history != [] ==> history[|history| - 1].pick == start)
      modifies this`ptab, this`idle, this`cur, this`history
      ensures ptab == old(ptab)[pp := old(ptab)[pp].(status := P_RUNNING)]
      ensures Valid() && !idle && cur == pp && history == old(history) + [Pick(ready, start, pp)]
    {
      hide NoLostExit, Parents, PidsUnique, IsNext, Distance;
      history := history + [Pick(ready, start, pp)];
      ghost var t := ptab;
      cur := pp;
      ptab := ptab[cur := ptab[cur].(status := P_RUNNING)];
      idle := false;
      assert WaitsRight(t[cur], cur);
      StatusKeeps(t, ptab, cur, old(cur), cur, born);
    }

    // New processes.

    /** `ptab_alloc`: an empty slot, or that of an image given up for it, and a process
        number that nobody uses. */
    method PtabAlloc(victim: nat) returns (ok: bool, c: nat, pid: nat)
      requires Valid() && !idle && victim < PTABSIZE
      modifies this`ptab, this`nextpid
      ensures Valid() && !idle
      ensures ok ==> c < PTABSIZE && c != 0 && ptab[c].status == P_EMPTY && 1 <= pid <= 32001
      ensures ok ==> forall s: nat :: s < PTABSIZE && ptab[s].status != P_EMPTY ==> ptab[s].pid != pid
      ensures ok <==> HasSlot(old(ptab), victim)
      ensures !ok ==> ptab == old(ptab) && nextpid == old(nextpid)
      ensures ok ==> ptab == Vacated(old(ptab), victim)
      ensures ok ==> c == FirstEmpty(ptab, 0) && IsNextPid(ptab, old(nextpid), pid)
      ensures ok ==> nextpid == pid
    {
      hide NoLostExit, Parents, PidsUnique, Waiting, IsHistory;
      c := FindEmpty();
      if c == PTABSIZE {
        if ptab[victim].status != P_ZOMBIE2 {
          return false, 0, 0;
        }
        ghost var t := ptab;
        ptab := ptab[victim := ptab[victim].(status := P_EMPTY)];
        SlotKeeps(t, ptab, victim, cur, born);
        c := FindEmpty();
      }
      InitSlot(ptab, born);
      pid := NextPid();
      ok := true;
    }

    lemma InitSlot(t: Table, born: seq<nat>)
      requires Shape(t) && Parents(t, born)
      ensures Real(t[0].status)
    {
    }

    method FindEmpty() returns (c: nat)
      requires Shape(ptab)
      ensures c == FirstEmpty(ptab, 0)
      ensures c <= PTABSIZE && (c < PTABSIZE ==> ptab[c].status == P_EMPTY)
      ensures c == PTABSIZE ==> forall s: nat :: s < PTABSIZE ==> ptab[s].status != P_EMPTY
    {
      c := 0;
      while c < PTABSIZE && ptab[c].status != P_EMPTY
        invariant 0 <= c <= PTABSIZE && forall s: nat :: s < c ==> ptab[s].status != P_EMPTY
        invariant FirstEmpty(ptab, 0) == FirstEmpty(ptab, c)
      {
        c := c + 1;
      }
    }

    /** The loop of `ptab_alloc` over process numbers. */
    method NextPid() returns (pid: nat)
      requires Shape(ptab) && nextpid <= 32001
      modifies this`nextpid
      ensures pid == nextpid && 1 <= pid <= 32001 && IsNextPid(ptab, old(nextpid), pid)
      ensures forall s: nat :: s < PTABSIZE && ptab[s].status != P_EMPTY ==> ptab[s].pid != pid
    {
      ghost var last, k, users: seq<nat> := nextpid, 0, [];
      while true
        invariant nextpid <= 32001 && k <= PTABSIZE && Blocked(ptab, last, k, users) && last <= 32001
        invariant nextpid == if k == 0 then last else Candidate(last, k)
        invariant forall i :: 1 <= i <= k ==> PidInUse(ptab, Candidate(last, i))
        decreases PTABSIZE + 1 - k
      {
        nextpid := if nextpid > 32000 then 1 else nextpid + 1;
        var s := 0;
        while s < PTABSIZE && (ptab[s].status == P_EMPTY || ptab[s].pid != nextpid)
          invariant 0 <= s <= PTABSIZE && forall r: nat :: r < s && ptab[r].status != P_EMPTY ==> ptab[r].pid != nextpid
        {
          s := s + 1;
        }
        if s == PTABSIZE {
          assert nextpid == Candidate(last, k + 1) && !PidInUse(ptab, nextpid);
          return nextpid;
        }
        users := users + [s];
        k := k + 1;
        FewTries(ptab, last, k, users);
      }
    }

    /** `dofork`: the child is a child of the current process, and runs. */
    method Fork(victim: nat) returns (ok: bool)
      requires Valid() && !idle && victim < PTABSIZE
      modifies this`ptab, this`nextpid, this`cur, this`born, this`clock
      ensures Valid() && !idle
      ensures ok ==> ptab[cur].pptr == old(cur) != cur && ptab[old(cur)].status == P_READY
      ensures ok ==> ptab[cur].ignored == ptab[old(cur)].ignored && ptab[cur].vec == ptab[old(cur)].vec
      ensures ok ==> ptab[cur].pending == {} && ptab[cur].alarm == 0 && ptab[cur].cursig == 0
      ensures ok <==> HasSlot(old(ptab), victim)
      ensures !ok ==> cur == old(cur) && ptab == old(ptab) && nextpid == old(nextpid)
      ensures ok ==> Forked(old(ptab), old(cur), old(nextpid), victim, ptab, cur, nextpid)
    {
      hide NoLostExit, Parents, PidsUnique, IsHistory;
      var c, pid;
      ok, c, pid := PtabAlloc(victim);
      if !ok {
        return;
      }
      ghost var t := ptab;
      ptab := ptab[cur := ptab[cur].(status := P_READY)];
      assert WaitsRight(t[cur], cur);
      StatusKeeps(t, ptab, cur, cur, cur, born);
      t := ptab;
      ptab := ptab[c := Process(P_RUNNING, pid, cur, Null, 0, {}, ptab[cur].ignored, ptab[cur].vec, 0, 0)];
      BirthKeeps(t, ptab, cur, c, born, clock);
      cur := c;
      born := born[c := clock];
      clock := clock + 1;
    }

    /** `make_zombie`, as far as the process table goes. */
    method MakeImage(victim: nat) returns (ok: bool)
      requires Valid() && !idle && victim < PTABSIZE
      modifies this`ptab, this`nextpid
      ensures Valid() && !idle
      ensures Shape(old(ptab)) && (ok <==> HasSlot(old(ptab), victim))
      ensures !ok ==> ptab == old(ptab) && nextpid == old(nextpid)
      ensures ok ==> Imaged(old(ptab), old(nextpid), victim, ptab, nextpid)
    {
      hide NoLostExit, Parents, PidsUnique, IsHistory, Waiting;
      var c, pid;
      ok, c, pid := PtabAlloc(victim);
      if ok {
        ghost var t := ptab;
        ptab := ptab[c := Process(P_ZOMBIE2, pid, -1, Null, 0, {}, {}, ptab[c].vec, 0, 0)];
        SlotKeeps(t, ptab, c, cur, born);
      }
    }

    /** The system at boot: init, in slot 0, is its own parent. */
    constructor ()
      ensures Valid() && !idle && history == []
    {
      var none := Process(P_EMPTY, 0, -1, Null, 0, {}, {}, seq<Disposition>(16, _ => SIG_DFL), 0, 0);
      var init := Process(P_RUNNING, 1, 0, Null, 0, {}, {}, seq<Disposition>(16, _ => SIG_DFL), 0, 0);
      ptab := seq<Process>(30, s => if s == 0 then init else none);
      cur, idle, pp, nextpid := 0, false, 0, 1;
      born, clock, history := seq<nat>(30, _ => 0), 1, [];
    }

    // Waiting for children.

    /** The first loop of `_wait`: whether there is a child, exited or not. */
    method HasChildren() returns (r: bool)
      requires Valid() && !idle
      ensures r <==> exists s: nat :: s < PTABSIZE && s != cur && Real(ptab[s].status) && ptab[s].pptr == cur
    {
      hide NoLostExit, Parents, PidsUnique, Waiting, IsHistory, OneRunning;
      for p := 0 to PTABSIZE
        invariant forall s: nat :: s < p && s != cur && Real(ptab[s].status) ==> ptab[s].pptr != cur
      {
        if ptab[p].status != P_EMPTY && ptab[p].status != P_ZOMBIE2 && ptab[p].pptr == cur && p != cur {
          return true;
        }
      }
      r := false;
    }

    /** The search of `_wait` for an exited child: the number of its slot. */
    method FindExited() returns (z: nat)
      requires Shape(ptab)
      ensures z == FirstExited(ptab, cur, 0)
      ensures z <= PTABSIZE && (z < PTABSIZE ==> ptab[z].status == P_ZOMBIE && ptab[z].pptr == cur)
      ensures z == PTABSIZE ==> forall s: nat :: s < PTABSIZE && ptab[s].status == P_ZOMBIE ==> ptab[s].pptr != cur
    {
      z := 0;
      while z < PTABSIZE && !(ptab[z].status == P_ZOMBIE && ptab[z].pptr == cur)
        invariant 0 <= z <= PTABSIZE && forall s: nat :: s < z && ptab[s].status == P_ZOMBIE ==> ptab[s].pptr != cur
        invariant FirstExited(ptab, cur, 0) == FirstExited(ptab, cur, z)
      {
        z := z + 1;
      }
    }

    predicate HasExited(t: Table, c: nat)
      requires Shape(t)
    {
      exists z: nat :: z < PTABSIZE && t[z].status == P_ZOMBIE && t[z].pptr == c
    }

    /** One turn of the endless loop of `_wait`: a signal ends the process or the call, an
        exited child is collected, or the process sleeps until a child exits. Interrupts
        may come between the search and the sleep, at the sleep, and at the exit. */
    method WaitTurn(found: seq<Interrupt>, asleep: seq<Interrupt>, atExit: seq<Interrupt>) returns (r: WaitResult)
      requires Valid() && !idle && InterruptsOk(found) && InterruptsOk(asleep) && InterruptsOk(atExit)
      modifies this`ptab, this`idle, this`start, this`ready, this`tried
      ensures Valid() && cur == old(cur) && (idle <==> r == Killed || r == Suspended)
      ensures r == Killed <==> Doomed(old(ptab)[cur])
      ensures r == Interrupted <==> !Doomed(old(ptab)[cur]) && Noted(old(ptab)[cur])
      ensures r.Collected? <==> !Doomed(old(ptab)[cur]) && !Noted(old(ptab)[cur]) && HasExited(old(ptab), cur)
      ensures ptab == WaitTable(old(ptab), cur, found, asleep, atExit)
      ensures r.Collected? ==>
                var z := FirstExited(old(ptab), cur, 0);
                z < PTABSIZE && r == Collected(old(ptab)[z].pid, old(ptab)[z].exitval)
    {
      hide NoLostExit, Parents, PidsUnique, Waiting, IsHistory, Noted, Doomed, Checked, ExitTable, SleepTable,
           AfterIrqs, Deadly, FirstExited;
      ghost var t := ptab;
      var deadly := Chksigs();
      CurWaits(t, cur);
      CheckedKeeps(t, ptab, cur, if deadly == 0 then NSIGS else deadly, born);
      if deadly != 0 {
        Exit(deadly, atExit);
        return Killed;
      }
      if ptab[cur].cursig != 0 {
        return Interrupted;
      }
      var z := FindExited();
      SameExited(t, ptab, cur, 0);
      if z < PTABSIZE {
        r := Collect(z);
        return;
      }
      forall s: nat | s < PTABSIZE && t[s].status == P_ZOMBIE ensures t[s].pptr != cur {
        assert ptab[s].status == P_ZOMBIE ==> ptab[s].pptr != cur;
      }
      t := ptab;
      Interrupts(found);
      WakesKeep(t, ptab, cur, born);
      StillNone(t, ptab, cur);
      Psleep(Slot(cur), asleep, atExit);
      r := Suspended;
    }

    lemma {:induction false} SameExited(t: Table, u: Table, c: nat, s: nat)
      requires |t| == |u| && forall i :: 0 <= i < |t| ==> t[i].status == u[i].status && t[i].pptr == u[i].pptr
      ensures FirstExited(t, c, s) == FirstExited(u, c, s)
      decreases |t| - s
    {
      if s < |t| { SameExited(t, u, c, s + 1); }
    }

    /** An exited child leaves the table. */
    method Collect(z: nat) returns (r: WaitResult)
      requires Valid() && !idle && z < PTABSIZE && ptab[z].status == P_ZOMBIE && ptab[z].pptr == cur
      modifies this`ptab
      ensures Valid() && r == Collected(old(ptab)[z].pid, old(ptab)[z].exitval) && ptab == Reaped(old(ptab), z)
    {
      hide NoLostExit, Parents, PidsUnique, Waiting, IsHistory;
      ghost var t := ptab;
      r := Collected(ptab[z].pid, ptab[z].exitval);
      InitSlot(t, born);
      ptab := ptab[z := ptab[z].(status := P_EMPTY)];
      ReapKeeps(t, ptab, z, cur, born);
    }

    /** `_signal`, for a signal number and a disposition that are allowed. */
    method SetVector(sig: nat, d: Disposition)
      requires Valid() && !idle && 1 <= sig < NSIGS
      modifies this`ptab
      ensures Valid() && Shape(old(ptab)) && old(cur) < PTABSIZE && cur == old(cur)
      ensures ptab == old(ptab)[cur := WithVector(old(ptab)[cur], sig, d)]
    {
      hide NoLostExit, Parents, PidsUnique, Waiting, IsHistory;
      ghost var t := ptab;
      var p := ptab[cur];
      var ignored := if d == SIG_IGN then p.ignored + {sig} else p.ignored - {sig};
      ptab := ptab[cur := p.(vec := p.vec[sig := d], ignored := ignored)];
      assert ptab == t[cur := WithVector(p, sig, d)];
      CurWaits(t, cur);
      StatusKeeps(t, ptab, cur, cur, cur, born);
    }

    /** `_alarm`. */
    method SetAlarm(secs: nat) returns (left: nat)
      requires Valid() && !idle
      modifies this`ptab
      ensures ptab == old(ptab)[cur := old(ptab)[cur].(alarm := secs)]
      ensures Valid() && left == old(ptab)[cur].alarm && ptab[cur].alarm == secs
    {
      hide NoLostExit, Parents, PidsUnique, Waiting, IsHistory;
      ghost var t := ptab;
      left := ptab[cur].alarm;
      ptab := ptab[cur := ptab[cur].(alarm := secs)];
      CurWaits(t, cur);
      StatusKeeps(t, ptab, cur, cur, cur, born);
    }
  }

  datatype WaitResult = Interrupted | Collected(pid: nat, exitval: nat) | Suspended | Killed

  lemma CurWaits(t: Table, s: nat)
    requires Shape(t) && Waiting(t) && s < PTABSIZE
    ensures WaitsRight(t[s], s)
  {
  }

  /** Interrupts do not make anybody exit. */
  lemma StillNone(t: Table, u: Table, cur: nat)
    requires Shape(t) && Shape(u) && OnlyWakes(t, u)
    requires forall s: nat :: s < PTABSIZE && t[s].status == P_ZOMBIE ==> t[s].pptr != cur
    ensures forall s: nat :: s < PTABSIZE && u[s].status == P_ZOMBIE ==> u[s].pptr != cur
  {
    forall s: nat | s < PTABSIZE && u[s].status == P_ZOMBIE ensures u[s].pptr != cur {
      assert Woken(t[s], u[s]);
    }
  }

  /** A slot that holds no process is emptied, or gets an image with a number of its own. */
  lemma SlotKeeps(t: Table, u: Table, c: nat, cur: nat, born: seq<nat>)
    requires Inv(t, cur, false, born) && Shape(u) && c < PTABSIZE && u == t[c := u[c]]
    requires t[c].status in {P_EMPTY, P_ZOMBIE2} && u[c].status in {P_EMPTY, P_ZOMBIE2}
    requires u[c].status == P_ZOMBIE2 ==> 1 <= u[c].pid <= 32001
    requires u[c].status == P_ZOMBIE2 ==> forall s: nat :: s < PTABSIZE && t[s].status != P_EMPTY ==>
      t[s].pid != u[c].pid
    ensures Inv(u, cur, false, born)
  {
    assert Waiting(u) by {
      forall s: nat | s < PTABSIZE ensures WaitsRight(u[s], s) { assert WaitsRight(t[s], s); }
    }
    assert Parents(u, born);
  }

  /** A collected child leaves the table; it had no children left. */
  lemma ReapKeeps(t: Table, u: Table, z: nat, cur: nat, born: seq<nat>)
    requires Inv(t, cur, false, born) && z < PTABSIZE && t[z].status == P_ZOMBIE && t[z].pptr == cur
    requires u == t[z := t[z].(status := P_EMPTY)]
    ensures Inv(u, cur, false, born)
  {
    assert z != 0;
    assert Waiting(u) by {
      forall s: nat | s < PTABSIZE ensures WaitsRight(u[s], s) { assert WaitsRight(t[s], s); }
    }
    assert Parents(u, born);
  }

  /** A child is born in an empty slot. */
  lemma BirthKeeps(t: Table, u: Table, cur: nat, c: nat, born: seq<nat>, clock: nat)
    requires Core(t, cur, born) && t[cur].status == P_READY && c < PTABSIZE && c != 0 && t[c].status == P_EMPTY
    requires Shape(u) && u == t[c := u[c]] && u[c].status == P_RUNNING && u[c].pptr == cur && u[c].wait == Null
    requires 1 <= u[c].pid <= 32001 && forall s: nat :: s < PTABSIZE && t[s].status != P_EMPTY ==> t[s].pid != u[c].pid
    requires forall s :: 0 <= s < PTABSIZE ==> born[s] < clock
    ensures Inv(u, c, false, born[c := clock])
  {
    assert Waiting(u) by {
      forall s: nat | s < PTABSIZE ensures WaitsRight(u[s], s) { assert WaitsRight(t[s], s); }
    }
    hide WaitsRight;
    BirthFamily(t, u, cur, c, born, clock);
  }

  lemma BirthFamily(t: Table, u: Table, cur: nat, c: nat, born: seq<nat>, clock: nat)
    requires Shape(t) && Shape(u) && Parents(t, born) && PidsUnique(t) && cur < PTABSIZE && t[cur].status == P_READY
    requires c < PTABSIZE && c != 0 && t[c].status == P_EMPTY
    requires u == t[c := u[c]] && u[c].status == P_RUNNING && u[c].pptr == cur
    requires 1 <= u[c].pid <= 32001 && forall s: nat :: s < PTABSIZE && t[s].status != P_EMPTY ==> t[s].pid != u[c].pid
    requires forall s :: 0 <= s < PTABSIZE ==> born[s] < clock
    ensures Parents(u, born[c := clock]) && PidsUnique(u)
  {
    assert Parents(u, born[c := clock]);
  }

  // Whole runs.

  /** What happens next: to the running process, or to nobody while the scheduler looks
      for a process. Interrupts are given with each. */
  datatype Action =
    | Sleeps(e: Event, before: seq<Interrupt>, atExit: seq<Interrupt>)
    | Waits(found: seq<Interrupt>, asleep: seq<Interrupt>, atExit: seq<Interrupt>)
    | Exits(val: nat, before: seq<Interrupt>)
    | Forks(victim: nat)
    | Images(victim: nat)
    | GivesWay(atExit: seq<Interrupt>)
    | Catches(sig: nat, d: Disposition)
    | SetsAlarm(secs: nat)
    | Hears(irqs: seq<Interrupt>)
    | Dispatches(looks: seq<seq<Interrupt>>)

  predicate ActionOk(a: Action) {
    match a
    case Sleeps(e, x, y) => InterruptsOk(x) && InterruptsOk(y)
    case Waits(x, y, z) => InterruptsOk(x) && InterruptsOk(y) && InterruptsOk(z)
    case Exits(_, x) => InterruptsOk(x)
    case Forks(v) => v < PTABSIZE
    case Images(v) => v < PTABSIZE
    case GivesWay(x) => InterruptsOk(x)
    case Catches(sig, _) => 1 <= sig < NSIGS
    case SetsAlarm(_) => true
    case Hears(x) => InterruptsOk(x)
    case Dispatches(xs) => forall i :: 0 <= i < |xs| ==> InterruptsOk(xs[i])
  }

  /** The process table, who runs, whether the scheduler looks for a process, its cursor,
      and the last process number given. */
  datatype Snap = Snap(ptab: Table, cur: nat, idle: bool, pp: nat, nextpid: nat)

  ghost function SnapOf(k: Kernel): Snap
    reads k
  {
    Snap(k.ptab, k.cur, k.idle, k.pp, k.nextpid)
  }

  ghost predicate SnapOk(x: Snap) {
    Shape(x.ptab) && x.cur < PTABSIZE && x.pp < PTABSIZE && x.nextpid <= 32001
  }

  /** What an action makes of these; what cannot happen now does nothing. */
  ghost predicate Acted(x: Snap, a: Action, y: Snap) {
    && SnapOk(x) && ActionOk(a)
    && var t, u, c := x.ptab, y.ptab, x.cur;
       if x.idle then
         if a.Dispatches? then
           if y.idle then PassedOver(t, x.pp, a.looks) && u == Looked(t, a.looks) && y.cur == c
           else exists i :: 0 <= i < |a.looks| && Picked(t, x.pp, a.looks, i, u, y.cur)
         else y == x
       else match a
         case Sleeps(e, b, z) =>
           y.cur == c && (if e != Slot(c) then y.idle && u == SleepTable(t, c, e, b, z) else y == x)
         case Waits(f, b, z) => y.cur == c && u == WaitTable(t, c, f, b, z)
         case Exits(v, b) => y.cur == c && y.idle && u == ExitTable(t, c, v, b)
         case Forks(v) =>
           !y.idle && if HasSlot(t, v) then Forked(t, c, x.nextpid, v, u, y.cur, y.nextpid) else y == x
         case Images(v) =>
           !y.idle && y.cur == c && if HasSlot(t, v) then Imaged(t, x.nextpid, v, u, y.nextpid) else y == x
         case GivesWay(b) => y.cur == c && y.idle && u == SwapTable(t[c := t[c].(status := P_READY)], c, b)
         case Catches(sig, d) => y == x.(ptab := t[c := WithVector(t[c], sig, d)])
         case SetsAlarm(n) => y == x.(ptab := t[c := t[c].(alarm := n)])
         case Hears(b) => y == x.(ptab := AfterIrqs(t, b))
         case Dispatches(_) => y == x
  }

  /** One action. */
  method Act(k: Kernel, a: Action)
    requires k.Valid() && ActionOk(a)
    modifies k
    ensures k.Valid() && Acted(old(SnapOf(k)), a, SnapOf(k))
    ensures k.history == old(k.history) || (exists p :: k.history == old(k.history) + [p])
  {
    hide NoLostExit, Parents, PidsUnique, Waiting, OneRunning, IsHistory, ExitTable, SwapTable, SleepTable, WaitTable,
         Forked, Imaged, Picked, PassedOver, Looked, AfterIrqs;
    if k.idle {
      if a.Dispatches? {
        var found := k.Getproc(a.looks);
      }
      return;
    }
    match a
    case Sleeps(e, x, y) => if e != Slot(k.cur) { k.Psleep(e, x, y); }
    case Waits(x, y, z) => var r := k.WaitTurn(x, y, z);
    case Exits(v, x) =>
      Alive(k);
      k.Exit(v, x);
    case Forks(v) => var ok := k.Fork(v);
    case Images(v) => var ok := k.MakeImage(v);
    case GivesWay(x) => k.Preempt(x);
    case Catches(sig, d) => k.SetVector(sig, d);
    case SetsAlarm(n) => var left := k.SetAlarm(n);
    case Hears(x) =>
      ghost var t := k.ptab;
      k.Interrupts(x);
      WakesKeep(t, k.ptab, k.cur, k.born);
    case Dispatches(_) =>
  }

  lemma Alive(k: Kernel)
    requires k.Valid() && !k.idle
    ensures Live(k.ptab[k.cur].status) && k.Linked()
  {
  }

  /** At most one process runs, and nobody waits for a child that has exited. */
  ghost predicate Safe(t: Table) {
    && |t| == PTABSIZE
    && (forall s: nat, r: nat :: s < PTABSIZE && r < PTABSIZE && t[s].status == t[r].status == P_RUNNING ==> s == r)
    && (forall s: nat, z: nat ::
          s < PTABSIZE && z < PTABSIZE && t[s].status == P_WAIT && t[z].status == P_ZOMBIE ==> t[z].pptr != s)
  }

  lemma IsSafe(k: Kernel)
    requires k.Valid()
    ensures Safe(k.ptab) && k.cur < PTABSIZE
  {
  }

  /** Every reachable state is safe, and what each action makes of the one before; and if
      q was READY at all selections of the run, and never picked, then there were not more
      than 29. */
  method Run(k: Kernel, actions: seq<Action>, q: nat) returns (ghost xs: seq<Snap>)
    requires k.Valid() && (forall i :: 0 <= i < |actions| ==> ActionOk(actions[i])) && q < PTABSIZE
    modifies k
    ensures k.Valid()
    ensures |xs| == |actions| + 1 && xs[0] == old(SnapOf(k)) && xs[|actions|] == SnapOf(k)
    ensures forall i :: 0 <= i < |actions| ==> Acted(xs[i], actions[i], xs[i + 1])
    ensures forall i :: 0 <= i < |xs| ==> Safe(xs[i].ptab)
    ensures |old(k.history)| <= |k.history| && k.history[..|old(k.history)|] == old(k.history)
    ensures (forall i :: |old(k.history)| <= i < |k.history| ==> q in k.history[i].ready && k.history[i].pick != q) ==>
              |k.history| - |old(k.history)| <= PTABSIZE - 1
  {
    hide Acted, Safe;
    xs := [SnapOf(k)];
    IsSafe(k);
    for i := 0 to |actions|
      invariant k.Valid() && |xs| == i + 1 && xs[0] == old(SnapOf(k)) && xs[i] == SnapOf(k)
      invariant forall j :: 0 <= j < i ==> Acted(xs[j], actions[j], xs[j + 1])
      invariant forall j :: 0 <= j <= i ==> Safe(xs[j].ptab)
      invariant |old(k.history)| <= |k.history| && k.history[..|old(k.history)|] == old(k.history)
    {
      Act(k, actions[i]);
      IsSafe(k);
      xs := xs + [SnapOf(k)];
    }
    if forall i :: |old(k.history)| <= i < |k.history| ==> q in k.history[i].ready && k.history[i].pick != q {
      BoundedWaiting(k.history[|old(k.history)|..], q);
    }
  }

  function Ready(t: Table): set<nat> {
    set s: nat | s < |t| && t[s].status == P_READY
  }
}
