/** Whole runs of the memory side of processes, held against a machine on which every
    process has pages of its own: each event of the kernel is one step of that machine,
    and which step it is follows from the event and the machine's state. */
module CowRuns {
  import opened Blocks
  import opened ProcStatus
  import opened PageTables
  import opened CowSteps
  import opened CowMemory

  /** What can happen next; process numbers and scheduling choices are given. */
  datatype Event =
    | Write(entry: nat, off: nat, val: Byte)
    | Read(entry: nat, off: nat)
    | Fork(pid: nat)
    | Swap(st: Status, next: nat)
    | Quit(next: nat)
    | Wake(slot: nat)
    | Exec(key: Key, prog: seq<Poke>, args: seq<Poke>, pid: nat)

  predicate EventOk(e: Event, load: Key -> Space) {
    match e
    case Write(j, off, _) => j < ENTRIES && off < PAGE_SIZE
    case Read(j, off) => j < ENTRIES && off < PAGE_SIZE
    case Fork(pid) => pid <= 32001
    case Exec(key, prog, args, pid) => PokesOk(prog) && PokesOk(args) && pid <= 32001 && load(key) == Loaded(prog)
    case _ => true
  }

  /** The abstract machine: address spaces, each on its own, and the statuses that tell
      which slots are processes and what they wait for. */
  datatype System = System(plain: Plain, status: seq<Status>)

  /** What did happen, as the abstract machine sees it. */
  datatype Step =
    | Wrote(entry: nat, off: nat, val: Byte)
    | DidRead(entry: nat, off: nat, val: Byte)
    | Forked(child: nat)
    | Ran(st: Status, next: nat)
    | Left(next: nat)
    | Woke(slot: nat)
    | Execed(space: Space)
    | Nothing

  ghost predicate SystemOk(x: System) {
    && |x.status| == PTABSIZE && x.plain.cur < PTABSIZE && x.status[x.plain.cur] == P_RUNNING
    && (forall s: nat :: s in x.plain.spaces <==> s < PTABSIZE && HasSpace(x.status[s]))
    && (forall s: nat :: s in x.plain.spaces ==> |x.plain.spaces[s]| == ENTRIES)
    && forall s :: 0 <= s < PTABSIZE && s != x.plain.cur ==> x.status[s] != P_RUNNING
  }

  ghost function Current(x: System): (c: Space)
    requires SystemOk(x)
    ensures |c| == ENTRIES
  {
    x.plain.spaces[x.plain.cur]
  }

  predicate MaySwap(x: System, st: Status, b: nat) {
    && b < |x.status| && Waits(st)
    && if b == x.plain.cur then st == P_READY else x.status[b] == P_READY
  }

  predicate MayQuit(x: System, b: nat) {
    b < |x.status| && b != x.plain.cur && x.status[b] == P_READY
  }

  predicate MayWake(x: System, s: nat) {
    s < |x.status| && (Waits(x.status[s]) || x.status[s] == P_ZOMBIE)
  }

  /** The steps that event e may be: one, but for the slot that fork takes. A store or a
      load fails exactly on an illegal entry, a fork exactly when there is no slot, and a
      load delivers the byte of the process's own address space. */
  ghost predicate Explains(x: System, e: Event, step: Step) {
    && SystemOk(x)
    && match e
       case Write(j, off, v) =>
         j < ENTRIES && off < PAGE_SIZE && step == if Current(x)[j] == Absent then Nothing else Wrote(j, off, v)
       case Read(j, off) =>
         && j < ENTRIES && off < PAGE_SIZE
         && (match Touched(Current(x)[j])
             case Bytes(data) => step == DidRead(j, off, data[off])
             case _ => step == Nothing)
       case Fork(_) =>
         if P_EMPTY in x.status
         then step.Forked? && step.child < PTABSIZE && x.status[step.child] == P_EMPTY
         else step == Nothing
       case Swap(st, b) => step == if MaySwap(x, st, b) then Ran(st, b) else Nothing
       case Quit(b) => step == if MayQuit(x, b) then Left(b) else Nothing
       case Wake(s) => step == if MayWake(x, s) then Woke(s) else Nothing
       case Exec(_, prog, args, _) =>
         PokesOk(prog) && PokesOk(args) && step == Execed(SealedSpace(Poked(Loaded(prog), args)))
  }

  /** A step works on the address space of the current process alone; the only way from
      one space to another is the copy made by fork. */
  ghost function Do(x: System, step: Step): System
    requires SystemOk(x)
  {
    var p, c, st := x.plain, Current(x), x.status;
    match step
    case Wrote(j, off, v) =>
      if j < |c| && off < PAGE_SIZE
      then x.(plain := Plain(p.cur, p.spaces[p.cur := c[j := Stored(c[j], off, v)]]))
      else x
    case DidRead(j, _, _) =>
      if j < |c| then x.(plain := Plain(p.cur, p.spaces[p.cur := c[j := Touched(c[j])]])) else x
    case Forked(child) =>
      if child < PTABSIZE
      then System(Plain(child, p.spaces[child := c]), st[p.cur := P_READY][child := P_RUNNING])
      else x
    case Ran(s, b) =>
      if b < PTABSIZE then System(Plain(b, p.spaces), if b == p.cur then st else st[p.cur := s][b := P_RUNNING]) else x
    case Left(b) =>
      if b < PTABSIZE then System(Plain(b, p.spaces - {p.cur}), st[p.cur := P_ZOMBIE][b := P_RUNNING]) else x
    case Woke(s) =>
      if s < PTABSIZE then x.(status := st[s := if st[s] == P_ZOMBIE then P_EMPTY else P_READY]) else x
    case Execed(d) => x.(plain := Plain(p.cur, p.spaces[p.cur := d]))
    case Nothing => x
  }

  lemma DoKeeps(x: System, e: Event, step: Step)
    requires Explains(x, e, step)
    ensures SystemOk(Do(x, step))
  {
    hide Stored, Touched, Poked, Loaded;
    if e.Fork? || e.Swap? || e.Quit? || e.Wake? {
      SlotsKeep(x, e, step);
    }
  }

  lemma SlotsKeep(x: System, e: Event, step: Step)
    requires Explains(x, e, step) && (e.Fork? || e.Swap? || e.Quit? || e.Wake?)
    ensures SystemOk(Do(x, step))
  {
    hide Stored, Touched, Poked, Loaded;
  }

  /** A process that is not running keeps its address space, whatever the others do. */
  lemma OtherUntouched(x: System, e: Event, step: Step, s: nat)
    requires Explains(x, e, step) && s in x.plain.spaces && x.plain.cur != s
    ensures SystemOk(Do(x, step)) && s in Do(x, step).plain.spaces && Do(x, step).plain.spaces[s] == x.plain.spaces[s]
  {
    DoKeeps(x, e, step);
  }

  /** The states that a list of events goes through, as one explanation has it. */
  ghost predicate Explained(xs: seq<System>, es: seq<Event>, steps: seq<Step>) {
    && |steps| == |es| && |xs| == |es| + 1
    && forall i :: 0 <= i < |es| ==> Explains(xs[i], es[i], steps[i]) && xs[i + 1] == Do(xs[i], steps[i])
  }

  lemma {:induction false} OthersUntouched(xs: seq<System>, es: seq<Event>, steps: seq<Step>, s: nat)
    requires Explained(xs, es, steps) && s in xs[0].plain.spaces
    requires forall i :: 0 <= i < |es| ==> xs[i].plain.cur != s
    ensures s in xs[|es|].plain.spaces && xs[|es|].plain.spaces[s] == xs[0].plain.spaces[s]
  {
    hide Explains, Do;
    if es != [] {
      var n := |es| - 1;
      OthersUntouched(xs[..n + 1], es[..n], steps[..n], s);
      OtherUntouched(xs[n], es[n], steps[n], s);
    }
  }

  ghost function SystemOf(k: Kernel): System
    requires Shape(k.St())
    reads k
  {
    System(View(k.St()), Classes(k.ptab))
  }

  lemma SystemIsOk(k: Kernel)
    requires k.Valid()
    ensures Shape(k.St()) && SystemOk(SystemOf(k)) && |k.ptab| == PTABSIZE && View(k.St()).cur == k.cur < PTABSIZE
    ensures Current(SystemOf(k)) == SpaceAt(k.St(), k.cur)
  {
    hide Counted, MmuOk, PgOk, SpaceAt;
    ViewIs(k.St());
    forall s: nat | s in View(k.St()).spaces ensures |SpaceAt(k.St(), s)| == ENTRIES {
      SpaceLength(k.St(), s);
    }
    SpaceLength(k.St(), k.cur);
  }

  lemma SpaceLength(m: Memory, s: nat)
    requires Shape(m) && s < PTABSIZE && HasTable(m.ptab[s].status)
    ensures |SpaceAt(m, s)| == ENTRIES
  {
  }

  /** The system stops: every page is in use by a process, or `execve` finds no slot for
      the image that it makes. */
  ghost predicate Stuck(k: Kernel, e: Event)
    reads k
  {
    || ((e.Write? || e.Read? || e.Exec?) && k.Exhausted())
    || (e.Exec? && P_EMPTY !in Classes(k.ptab))
  }

  /** What is the case after an event: the abstract machine made a step that explains it. */
  twostate predicate Performed(k: Kernel, e: Event, step: Step)
    requires old(Shape(k.St()))
    reads k
  {
    && k.Valid()
    && Explains(old(SystemOf(k)), e, step)
    && SystemOf(k) == Do(old(SystemOf(k)), step)
  }

  method PerformAccess(k: Kernel, e: Event) returns (alive: bool, step: Step)
    requires k.Valid() && EventOk(e, k.load) && (e.Write? || e.Read?)
    modifies k
    ensures alive ==> Performed(k, e, step)
    ensures !alive ==> Stuck(k, e)
    ensures !alive ==> k.Valid() && SystemOf(k) == old(SystemOf(k))
  {
    hide Inv, SpaceAt, SlotKept, TabsOf, Images, Rest, View, SystemOk;
    ghost var m := k.St();
    SystemIsOk(k);
    step := Nothing;
    var r;
    if e.Write? {
      r := k.StoreByte(e.entry, e.off, e.val);
      if r == Done { step := Wrote(e.entry, e.off, e.val); }
    } else {
      var v;
      r, v := k.LoadByte(e.entry, e.off);
      if r == Done { step := DidRead(e.entry, e.off, v); }
    }
    alive := r != NoPages;
    if !alive {
      KeptView(m, k.St());
      KeptClasses(m, k.St());
    } else if r == Done {
      RestView(m, k.St());
      CurClasses(m, k.St());
    }
  }

  method PerformProcess(k: Kernel, e: Event) returns (step: Step)
    requires k.Valid() && EventOk(e, k.load) && !e.Write? && !e.Read? && !e.Exec?
    modifies k
    ensures Performed(k, e, step)
  {
    hide Inv, SpaceAt, SlotKept, TabsOf, Images, Rest, View, SystemOk;
    SystemIsOk(k);
    step := Nothing;
    match e
    case Fork(pid) =>
      var ok := k.Dofork(pid);
      if ok { step := Forked(k.cur); }
    case Swap(st, b) =>
      if Waits(st) && b < PTABSIZE && (if b == k.cur then st == P_READY else k.ptab[b].status == P_READY) {
        k.Swapout(st, b);
        step := Ran(st, b);
      }
    case Quit(b) =>
      if b < PTABSIZE && b != k.cur && k.ptab[b].status == P_READY {
        k.Exit(b);
        step := Left(b);
      }
    case Wake(s) =>
      if s < PTABSIZE && (Waits(k.ptab[s].status) || k.ptab[s].status == P_ZOMBIE) {
        k.SetStatus(s);
        step := Woke(s);
      }
  }

  /** One event. Events that make no sense in the current state do nothing. */
  method Perform(k: Kernel, e: Event) returns (alive: bool, step: Step)
    requires k.Valid() && EventOk(e, k.load)
    modifies k
    ensures alive ==> Performed(k, e, step)
    ensures !alive ==> Stuck(k, e)
    ensures !alive && !e.Exec? ==> k.Valid() && SystemOf(k) == old(SystemOf(k))
  {
    hide Inv, SpaceAt, SlotKept, TabsOf, Images, Rest, View, SystemOk, Loaded, Poked;
    SystemIsOk(k);
    if e.Write? || e.Read? {
      alive, step := PerformAccess(k, e);
    } else if e.Exec? {
      var r := k.Execve(e.key, e.prog, e.args, e.pid);
      alive, step := r == Done, Execed(SealedSpace(Poked(Loaded(e.prog), e.args)));
    } else {
      step := PerformProcess(k, e);
      alive := true;
    }
  }

  /** Any run of the system does to the address spaces and statuses what the abstract
      machine does, step for event, until memory or the process table is full; and a
      process keeps its address space all the time that it is not running. */
  method Run(k: Kernel, events: seq<Event>) returns (alive: bool, steps: seq<Step>, ghost xs: seq<System>)
    requires k.Valid() && forall i :: 0 <= i < |events| ==> EventOk(events[i], k.load)
    modifies k
    ensures |steps| <= |events| && Explained(xs, events[..|steps|], steps) && xs[0] == old(SystemOf(k))
    ensures alive ==> |steps| == |events| && k.Valid() && SystemOf(k) == xs[|events|]
    ensures !alive ==> |steps| < |events| && Stuck(k, events[|steps|])
    ensures forall s: nat :: s in xs[0].plain.spaces && (forall i :: 0 <= i < |steps| ==> xs[i].plain.cur != s) ==>
      s in xs[|steps|].plain.spaces && xs[|steps|].plain.spaces[s] == xs[0].plain.spaces[s]
  {
    hide Kernel.Valid, View, Explains, Do, SystemOk, EventOk, Stuck, SystemOf, Explained;
    SystemIsOk(k);
    alive, steps, xs := true, [], [SystemOf(k)];
    Unexplained(xs[0]);
    for i := 0 to |events|
      invariant alive && k.Valid() && |steps| == i && |xs| == i + 1 && Shape(k.St()) && xs[i] == SystemOf(k)
      invariant Explained(xs, events[..i], steps) && xs[0] == old(SystemOf(k))
    {
      var step;
      alive, step := Perform(k, events[i]);
      if !alive { break; }
      SystemIsOk(k);
      ExplainOne(xs, events[..i], steps, events[i], step, SystemOf(k));
      assert events[..i + 1] == events[..i] + [events[i]];
      steps, xs := steps + [step], xs + [SystemOf(k)];
    }
    forall s: nat | s in xs[0].plain.spaces && (forall i :: 0 <= i < |steps| ==> xs[i].plain.cur != s)
      ensures s in xs[|steps|].plain.spaces && xs[|steps|].plain.spaces[s] == xs[0].plain.spaces[s]
    {
      OthersUntouched(xs, events[..|steps|], steps, s);
    }
  }

  lemma Unexplained(x: System)
    ensures Explained([x], [], [])
  {
  }

  lemma ExplainOne(xs: seq<System>, es: seq<Event>, steps: seq<Step>, e: Event, step: Step, x: System)
    requires Explained(xs, es, steps) && Explains(xs[|es|], e, step) && x == Do(xs[|es|], step)
    ensures Explained(xs + [x], es + [e], steps + [step])
  {
    hide Explains, Do;
  }
}
