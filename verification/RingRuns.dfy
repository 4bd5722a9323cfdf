/** The serial chip's interrupt handler `qsint`, a consumer, and the rings in memory, run
    against four queues (CHARIO.MAC). The handler visits the four ports and calls `ttyint`
    for those that want it. It finds the next port from where register C is, and after an
    overflow C is at a data register, not at a status register. `ttyint` has the
    subtrahend here that it ought to have. */
module RingRuns {
  import opened Blocks
  import opened ReceiveRing

  /** Whether an interrupt of a port loses a character: more than 31 with what waits. */
  predicate Over(x: Line) {
    |x.queue| + |x.chip| > SIZE - 1
  }

  lemma {:induction false} AbsorbLoses(x: Line)
    requires |x.queue| < SIZE
    ensures Over(x) <==> |Absorb(x).queue| + |Absorb(x).chip| < |x.queue| + |x.chip|
    ensures !Over(x) ==> Absorb(x).queue == x.queue + x.chip && Absorb(x).chip == []
    ensures Over(x) ==> Absorb(x).queue == x.queue + x.chip[..SIZE - 1 - |x.queue|]
    ensures Over(x) ==> Absorb(x).chip == x.chip[SIZE - |x.queue|..]
    decreases |x.chip|
  {
    if x.chip != [] && |x.queue| < SIZE - 1 { AbsorbLoses(Taken(x)); }
  }

  /** What the chip says of a port to a handler that reads `other` in its registers. */
  predicate Pending(other: nat -> Byte, port: nat) {
    other(Register(port, ISR)) % 2 == 0
  }

  /** What the handler is to do to a port. */
  function Served(x: Line, pending: bool): Line {
    if pending then Absorb(x) else x
  }

  /** A character read where a status was expected. */
  function Dropped(x: Line): Line {
    if x.chip == [] then x else x.(chip := x.chip[1..])
  }

  /** The first port from p on that is served and holds too much, or 4. */
  function FirstOver(xs: seq<Line>, other: nat -> Byte, p: nat): (k: nat)
    requires |xs| == PORTS && p <= PORTS
    ensures p <= k <= PORTS && (k < PORTS ==> Pending(other, k) && Over(xs[k]))
    ensures forall q :: p <= q < k ==> !(Pending(other, q) && Over(xs[q]))
    decreases PORTS - p
  {
    if p == PORTS || (Pending(other, p) && Over(xs[p])) then p else FirstOver(xs, other, p + 1)
  }

  /** An overflow at one of the first three ports leads the handler astray. */
  predicate Astray(xs: seq<Line>, other: nat -> Byte)
    requires |xs| == PORTS
  {
    FirstOver(xs, other, 0) < PORTS - 1
  }

  /** To the port behind the one that overflowed, losing a character is the service it
      wants only if none waits there, or if its ring is full as well. */
  lemma NextPortRight(x: Line, pending: bool)
    requires |x.queue| < SIZE
    ensures (Dropped(x).queue == Served(x, pending).queue && Dropped(x).chip == Served(x, pending).chip) <==>
            (x.chip == [] || (pending && |x.queue| == SIZE - 1))
  {
    AbsorbLoses(x);
  }

  /** From the pass that overflows to the read that drops the next port's character. */
  lemma NextPortLoses(mem: seq<Byte>, chip: Chip, port: nat)
    requires |mem| == MEMORY && |chip.fifos| == PORTS && port < PORTS - 1 && chip.fifos[port] != []
    requires (mem[Start(port)] + 1) % SIZE == mem[Start(port) + 1]
    ensures var r := OnePass(mem, chip, Register(port, LSR), LSR - RHR);
            && r.pass == Lost && r.c + 8 == Register(port + 1, RHR)
            && AfterIn(r.chip, r.c + 8).fifos[port + 1] ==
               if chip.fifos[port + 1] == [] then [] else chip.fifos[port + 1][1..]
  {
    RightPass(mem, chip, port);
  }

  // The machine.

  /** The memory, the chip, and the registers of a consumer that reads the ring of port
      `unit`; the other rings have consumers of their own. Besides, the characters that
      the consumers got, and the logs of what interrupts took. */
  datatype Sys = Sys(mem: seq<Byte>, chip: Chip, unit: nat, pc: Pc, a: nat, l: nat,
    delivered: seq<seq<Byte>>, logs: seq<seq<Mark>>)

  function RingOf(x: Sys, p: nat): (s: State)
    requires |x.mem| == MEMORY && p < PORTS
    ensures |s.buf| == SIZE
  {
    if p == x.unit then RingAt(x.mem, p, x.pc, x.a, x.l) else RingAt(x.mem, p, Poll, 0, 0)
  }

  predicate SysOk(x: Sys) {
    && |x.mem| == MEMORY && x.unit < PORTS && |x.chip.fifos| == |x.delivered| == |x.logs| == PORTS
    && forall p :: 0 <= p < PORTS ==> Ok(RingOf(x, p))
  }

  /** A port as a queue. */
  function LineOf(x: Sys, p: nat): Line
    requires SysOk(x) && p < PORTS
  {
    var s := RingOf(x, p);
    Line(s.pc, Queue(s), Inflight(s), x.delivered[p], x.chip.fifos[p], x.logs[p])
  }

  function Lines(x: Sys): (xs: seq<Line>)
    requires SysOk(x)
    ensures |xs| == PORTS && forall p :: 0 <= p < PORTS ==> xs[p] == LineOf(x, p)
  {
    seq(4, p requires 0 <= p < 4 => LineOf(x, p))
  }

  lemma Pointers(mem: seq<Byte>, p: nat, pc: Pc, a: nat, l: nat)
    requires |mem| == MEMORY && p < PORTS && Ok(RingAt(mem, p, pc, a, l))
    ensures mem[Start(p)] < SIZE && mem[Start(p) + 1] < SIZE
  {
  }

  /** The system after a pass for a port, with what it took in the log. */
  function Passed(x: Sys, r: Result, port: nat): Sys
    requires SysOk(x) && port < PORTS
  {
    var y := x.(mem := r.mem, chip := r.chip);
    if x.chip.fifos[port] == [] then y
    else y.(logs := y.logs[port := y.logs[port] + [Mark(x.chip.fifos[port][0], |Queue(RingOf(x, port))|)]])
  }

  /** What a pass for a port does to the line of p. */
  lemma PassLine(x: Sys, port: nat, p: nat)
    requires SysOk(x) && port < PORTS && p < PORTS && x.chip.fifos[port] != []
    ensures var r := OnePass(x.mem, x.chip, Register(port, LSR), LSR - RHR);
            var y := Passed(x, r, port);
            && |r.mem| == MEMORY && |r.chip.fifos| == PORTS && Ok(RingOf(y, p))
            && Inflight(RingOf(y, p)) == Inflight(RingOf(x, p)) && RingOf(y, p).pc == RingOf(x, p).pc
            && Queue(RingOf(y, p)) == (if p == port then Taken(LineOf(x, p)) else LineOf(x, p)).queue
            && r.pass == if |LineOf(x, port).queue| < SIZE - 1 then More else Lost
  {
    hide OnePass, Ok, Queue, Inflight, Put, Start;
    var s, s0 := RingOf(x, p), RingOf(x, port);
    RightPass(x.mem, x.chip, port);
    Pointers(x.mem, port, s0.pc, s0.a, s0.l);
    PassKeeps(x.mem, x.chip.fifos[port][0], port, p, s.pc, s.a, s.l);
    PassKeeps(x.mem, x.chip.fifos[port][0], port, port, s0.pc, s0.a, s0.l);
  }

  lemma PassLines(x: Sys, port: nat)
    requires SysOk(x) && port < PORTS
    ensures var r := OnePass(x.mem, x.chip, Register(port, LSR), LSR - RHR);
            var y, xs := Passed(x, r, port), Lines(x);
            && SysOk(y) && r.chip.other == x.chip.other
            && r.c == Register(port, match r.pass case Idle => ISR case Lost => RHR case More => LSR)
            && r.pass == (if xs[port].chip == [] then Idle else if |xs[port].queue| < SIZE - 1 then More else Lost)
            && Lines(y) == if r.pass == Idle then xs else xs[port := Taken(xs[port])]
  {
    hide OnePass, Ok, Queue, Inflight, RingAt;
    RightPass(x.mem, x.chip, port);
    var r := OnePass(x.mem, x.chip, Register(port, LSR), LSR - RHR);
    var y, xs := Passed(x, r, port), Lines(x);
    if x.chip.fifos[port] != [] {
      PassLine(x, port, port);
      forall p | 0 <= p < PORTS ensures Ok(RingOf(y, p)) { PassLine(x, port, p); }
      forall p | 0 <= p < PORTS ensures LineOf(y, p) == xs[port := Taken(xs[port])][p] { PassLine(x, port, p); }
      assert Lines(y) == xs[port := Taken(xs[port])];
    } else {
      assert y == x;
    }
  }

  /** The registers that the handler takes for status registers after an overflow: a data
      register, and where passes that overflow lead to from there. */
  predicate IsAstray(c: nat) {
    BASE + 8 <= c < BASE + 27 && (c - BASE) % 8 in {0, 4, 6}
  }

  lemma AstrayLines(x: Sys, c: nat)
    requires SysOk(x) && IsAstray(c)
    ensures var r := OnePass(x.mem, x.chip, c + (LSR - ISR), LSR - RHR);
            var y := x.(mem := r.mem, chip := r.chip);
            && r.chip == x.chip && SysOk(y) && Lines(y) == Lines(x)
            && r.c == match r.pass case Idle => c case Lost => c - 2 case More => c + (LSR - ISR)
  {
    hide OnePass, Ok, Queue, Inflight, RingAt;
    AstrayPass(x.mem, x.chip, c + (LSR - ISR));
    var r := OnePass(x.mem, x.chip, c + (LSR - ISR), LSR - RHR);
    var y := x.(mem := r.mem, chip := r.chip);
    forall p: nat | p < PORTS ensures RingOf(y, p) == RingOf(x, p) {}
    assert Lines(y) == Lines(x);
  }

  /** Reading a register. */
  lemma ReadLines(x: Sys, c: nat)
    requires SysOk(x) && BASE <= c < BASE + 32
    ensures var y := x.(chip := AfterIn(x.chip, c));
            var p := (c - BASE) / 8;
            SysOk(y) && Lines(y) == if (c - BASE) % 8 == RHR then Lines(x)[p := Dropped(Lines(x)[p])] else Lines(x)
  {
    hide Ok, Queue, Inflight, RingAt;
    var y := x.(chip := AfterIn(x.chip, c));
    forall p: nat | p < PORTS ensures RingOf(y, p) == RingOf(x, p) {}
    var q := (c - BASE) / 8;
    if (c - BASE) % 8 == RHR {
      forall p | 0 <= p < PORTS ensures Lines(y)[p] == Lines(x)[q := Dropped(Lines(x)[q])][p] {}
    } else {
      forall p | 0 <= p < PORTS ensures Lines(y)[p] == Lines(x)[p] {}
    }
  }

  lemma Sizes(x: Sys)
    requires SysOk(x)
    ensures |x.mem| == MEMORY && |x.chip.fifos| == PORTS
  {
  }

  lemma QueueFits(x: Sys, p: nat)
    requires SysOk(x) && p < PORTS
    ensures |LineOf(x, p).queue| < SIZE
  {
  }

  class Machine {
    const mem: array<Byte>
    const unit: nat
    var chip: Chip
    var pc: Pc
    var a: nat
    var l: nat
    var c: nat               // register C in the handler
    ghost var delivered: seq<seq<Byte>>
    ghost var logs: seq<seq<Mark>>

    ghost function St(): Sys
      reads this`chip, this`pc, this`a, this`l, this`delivered, this`logs, mem
    {
      Sys(mem[..], chip, unit, pc, a, l, delivered, logs)
    }

    ghost predicate Valid()
      reads this`chip, this`pc, this`a, this`l, this`delivered, this`logs, mem
    {
      mem.Length == MEMORY && SysOk(St())
    }

    /** The ports as queues. */
    ghost function Abs(): (xs: seq<Line>)
      requires Valid()
      reads this`chip, this`pc, this`a, this`l, this`delivered, this`logs, mem
      ensures |xs| == PORTS
    {
      Lines(St())
    }

    /** After `quad$init` of all ports. */
    constructor (unit: nat, other: nat -> Byte)
      requires unit < PORTS
      ensures Valid() && this.unit == unit && fresh(mem)
      ensures forall p :: 0 <= p < PORTS ==> Abs()[p] == Line(Poll, [], [], [], [], [])
    {
      mem := new Byte[MEMORY](_ => 0);
      this.unit := unit;
      chip := Chip([[], [], [], []], other);
      pc, a, l, c, delivered, logs := Poll, 0, 0, 0, [[], [], [], []], [[], [], [], []];
    }

    /** A pass of `ttyint` from `ttymore` on, as written but for the subtrahend. */
    method TtyMore(sub: nat) returns (pass: Pass)
      requires mem.Length == MEMORY && |chip.fifos| == PORTS && c < 256 && sub < 256
      modifies this`chip, this`c, mem
      ensures Result(pass, mem[..], chip, c) == OnePass(old(mem[..]), old(chip), old(c), sub) && |chip.fifos| == PORTS
    {
      hide RingNumber;
      var status := In(chip, c);
      chip := AfterIn(chip, c);
      if status % 2 == 0 {
        c := (c + 256 - (LSR - ISR)) % 256;
        return Idle;
      }
      c := (c + 256 - sub) % 256;
      var b := In(chip, c);
      chip := AfterIn(chip, c);
      var n := (c + 256 - BASE) % 256;
      n := Rrca(n);
      n := Rrca(n);
      n := Rrca(n);
      SameRing(c, n);
      var ix := Start(n);
      var at := mem[ix];
      var next := (at + 1) % SIZE;
      if next == mem[ix + 1] {
        return Lost;
      }
      mem[ix] := next;
      mem[ix + 2 + at] := b;
      c := (c + LSR) % 256;
      pass := More;
    }

    lemma SameRing(c: nat, n: nat)
      requires c < 256 && n == Rrca(Rrca(Rrca((c + 256 - BASE) % 256)))
      ensures n == RingNumber(c)
    {
    }

    /** A pass of `ttyint` with the right subtrahend, for a port, or astray. */
    method Turn(ghost port: nat, ghost right: bool, ghost from: nat) returns (pass: Pass)
      requires Valid()
      requires if right then port < PORTS && c == Register(port, LSR) else IsAstray(from) && c == from + (LSR - ISR)
      modifies this`chip, this`c, this`logs, mem
      ensures Valid() && chip.other == old(chip).other
      ensures right ==>
                var x := old(Abs())[port];
                && pass == (if x.chip == [] then Idle else if |x.queue| < SIZE - 1 then More else Lost)
                && Abs() == (if pass == Idle then old(Abs()) else old(Abs())[port := Taken(x)])
                && c == Register(port, match pass case Idle => ISR case Lost => RHR case More => LSR)
      ensures !right ==>
                && Abs() == old(Abs())
                && c == match pass case Idle => from case Lost => from - 2 case More => from + (LSR - ISR)
    {
      hide OnePass, SysOk, Lines;
      ghost var x := St();
      Sizes(x);
      if right { PassLines(x, port); } else { AstrayLines(x, from); }
      pass := TtyMore(LSR - RHR);
      if right {
        logs := Passed(x, OnePass(x.mem, x.chip, Register(port, LSR), LSR - RHR), port).logs;
      }
    }

    /** `ttyint`, from the register that C is at. For a port it takes all waiting characters
        in order, up to one that finds 31 in the ring: C is back at the status register
        exactly when none is lost, that is if the ring and the chip hold at most 31. The
        source has no limit on the passes; a port never needs more than 32. */
    method TtyInt(passes: nat, ghost port: nat, ghost right: bool) returns (pass: Pass)
      requires Valid() && passes >= SIZE && if right then port < PORTS && c == Register(port, ISR) else IsAstray(c)
      modifies this`chip, this`c, this`logs, mem
      ensures Valid() && chip.other == old(chip).other
      ensures right ==>
                && Abs() == old(Abs())[port := Absorb(old(Abs())[port])]
                && pass == (if Over(old(Abs())[port]) then Lost else Idle)
                && c == Register(port, if Over(old(Abs())[port]) then RHR else ISR)
      ensures !right ==> Abs() == old(Abs())
      ensures !right ==> match pass case Idle => c == old(c) case Lost => c == old(c) - 2 case More => true
    {
      hide OnePass, SysOk, Lines, Absorb, Over, Taken;
      ghost var xs := Abs();
      if right { AbsorbStarts(St(), port); }
      c := c + (LSR - ISR);
      pass := More;
      for n := 0 to passes
        invariant Valid() && chip.other == old(chip).other && pass == More && c == old(c) + (LSR - ISR)
        invariant right ==> Absorbing(xs, Abs(), port, n)
        invariant !right ==> Abs() == xs
      {
        if right { AbsorbStep(xs, Abs(), port, n); }
        pass := Turn(port, right, old(c));
        if pass != More { return; }
      }
    }

    /** One round of the loop of `qsint`, at a port's status register or astray. True means
        that `ttyint` goes on and on. */
    method Visit(passes: nat) returns (hung: bool)
      requires Valid() && passes >= SIZE && BASE <= c < BASE + 27 && ((c - BASE) % 8 == ISR || IsAstray(c))
      modifies this`chip, this`c, this`logs, mem
      ensures Valid() && chip.other == old(chip).other
      ensures Visited(old(Abs()), Abs(), chip.other, old(c), c, hung)
    {
      hide SysOk, Lines, Absorb, Over, Dropped, Pending, In, AfterIn, Visited, IsAstray;
      ghost var xs, other, c0 := Abs(), chip.other, c;
      ghost var p, right := (c - BASE) / 8, (c - BASE) % 8 == ISR;
      Sizes(St());
      StatusRead(chip, c);
      ReadLines(St(), c);
      var v := In(chip, c);
      chip := AfterIn(chip, c);
      ghost var ys := Abs();
      hung := false;
      if v % 2 == 0 {
        var pass := TtyInt(passes, p, right);
        hung := pass == More;
        if right { VisitServes(xs, Abs(), other, c0, c); } else { VisitStrays(xs, ys, other, c0, c, hung); }
      } else if right {
        VisitSkips(xs, other, c0);
      } else {
        VisitStrays(xs, ys, other, c0, c, false);
      }
    }

    /** `qsint`, with what it reads in the registers besides data and line status. Up to
        the first port that overflows, all ports are served; the port behind that one
        loses a character. */
    method QsInt(other: nat -> Byte, passes: nat) returns (hung: bool, astray: bool)
      requires Valid() && passes >= SIZE
      modifies this`chip, this`c, this`logs, mem
      ensures Valid() && Handled(old(Abs()), Abs(), other)
      ensures (astray <==> Astray(old(Abs()), other)) && (hung ==> astray)
      ensures !hung ==> c > Register(3, ISR)
    {
      hide SysOk, Lines, Scanning, FirstOver, Visited, Handled, IsAstray, Astray, Served, Dropped, Over, Pending,
           Absorb;
      ghost var xs, k, p := Abs(), FirstOver(Abs(), other, 0), 0;
      SetOther(St(), other);
      chip := chip.(other := other);
      c := Register(0, ISR);
      hung, astray := false, false;
      var right := true;
      ScanStart(xs, other);
      while c < Register(3, ISR) + 1
        invariant Valid() && chip.other == other && BASE <= c
        invariant Scanning(xs, Abs(), other, k, p, right, c)
        invariant astray <==> !right && k < PORTS - 1
        decreases 256 - c
      {
        ghost var ys := Abs();
        var c0 := c;
        ScanAt(xs, ys, other, k, p, right, c);
        hung := Visit(passes);
        ScanStep(xs, ys, Abs(), other, k, p, right, c0, c, hung);
        if hung { return true, true; }
        astray := astray || (right && c != c0 && c0 != Register(3, ISR));
        right, p, c := right && c == c0, p + 1, c + 8;
      }
      ScanEnd(xs, Abs(), other, k, p, right, c);
    }

    /** One instruction of the consumer. */
    method Instruction()
      requires Valid()
      modifies this`pc, this`a, this`l, this`delivered, mem
      ensures Valid() && Abs() == old(Abs())[unit := Step(old(Abs())[unit])] && chip == old(chip)
    {
      hide SysOk, Lines, Step;
      ghost var x := St();
      ExecLines(x);
      var ix := Start(unit);
      match pc
      case Poll => a, pc := mem[ix + 1], Compare;
      case Compare =>
        a := if a >= mem[ix] then a - mem[ix] else a + 256 - mem[ix];
        pc := if a == 0 then Poll else LoadOp;
      case LoadOp => a, pc := mem[ix + 1], CopyOp;
      case CopyOp => l, pc := a, Advance;
      case Advance => a, pc := a + 1, Mask;
      case Mask => a, pc := a % SIZE, StoreOp;
      case StoreOp =>
        mem[ix + 1] := a;
        pc := Address;
      case Address => pc := Fetch;
      case Fetch =>
        a := mem[ix + 2 + l];
        delivered := delivered[unit := delivered[unit] + [a]];
        pc := Poll;
      assert St() == ExecutedSys(x);
    }

    /** The consumer of another ring takes a character, if there is one. */
    method TakeOther(port: nat)
      requires Valid() && port < PORTS && port != unit
      modifies this`delivered, mem
      ensures Valid() && Abs() == old(Abs())[port := TakeOne(old(Abs())[port])] && chip == old(chip)
    {
      hide SysOk, Lines, TakeOne;
      ghost var x := St();
      TakeLines(x, port);
      var ix := Start(port);
      var op := mem[ix + 1];
      if op != mem[ix] {
        delivered := delivered[port := delivered[port] + [mem[ix + 2 + op]]];
        mem[ix + 1] := (op + 1) % SIZE;
      }
      assert St() == TakenSys(x, port);
    }

    /** A character reaches a port of the chip. */
    method Arrives(port: nat, b: Byte)
      requires Valid() && port < PORTS
      modifies this`chip
      ensures Valid() && Abs() == old(Abs())[port := Arrived(old(Abs())[port], b)]
    {
      hide SysOk, Lines, Arrived;
      ArriveLines(St(), port, b);
      chip := ArrivedChip(chip, port, b);
    }
  }

  /** Part of the way to what `Absorb` does to a port: n characters were taken and kept. */
  ghost predicate Absorbing(xs: seq<Line>, ys: seq<Line>, port: nat, n: nat) {
    && port < |xs| == |ys| && ys == xs[port := ys[port]]
    && Absorb(ys[port]) == Absorb(xs[port])
    && n + |xs[port].queue| == |ys[port].queue| < SIZE
    && |ys[port].queue| + |ys[port].chip| == |xs[port].queue| + |xs[port].chip|
  }

  lemma AbsorbStarts(x: Sys, port: nat)
    requires SysOk(x) && port < PORTS
    ensures Absorbing(Lines(x), Lines(x), port, 0)
  {
    QueueFits(x, port);
  }

  lemma AbsorbStep(xs: seq<Line>, ys: seq<Line>, port: nat, n: nat)
    requires Absorbing(xs, ys, port, n)
    ensures var y := ys[port];
            if y.chip == [] then ys == xs[port := Absorb(xs[port])] && !Over(xs[port])
            else if |y.queue| < SIZE - 1 then Absorbing(xs, ys[port := Taken(y)], port, n + 1)
            else ys[port := Taken(y)] == xs[port := Absorb(xs[port])] && Over(xs[port])
  {
    if ys[port].chip != [] { AbsorbTakes(ys[port]); }
  }

  /** What a visit with C at c did to the ports, and where it left C. */
  ghost predicate Visited(xs: seq<Line>, ys: seq<Line>, other: nat -> Byte, c: nat, d: nat, hung: bool) {
    && |xs| == |ys| == PORTS && BASE <= c < BASE + 27
    && var p, r := (c - BASE) / 8, (c - BASE) % 8;
       if r == ISR then
         && !hung && ys == xs[p := Served(xs[p], Pending(other, p))]
         && d == if Pending(other, p) && Over(xs[p]) then c - 2 else c
       else
         && IsAstray(c) && ys == (if r == RHR then xs[p := Dropped(xs[p])] else xs)
         && (hung || d == c || d == c - 2)
  }

  lemma VisitServes(xs: seq<Line>, ys: seq<Line>, other: nat -> Byte, c: nat, d: nat)
    requires |xs| == PORTS && BASE <= c < BASE + 27 && (c - BASE) % 8 == ISR && Pending(other, (c - BASE) / 8)
    requires var p := (c - BASE) / 8;
             ys == xs[p := Absorb(xs[p])] && d == Register(p, if Over(xs[p]) then RHR else ISR)
    ensures Visited(xs, ys, other, c, d, false)
  {
    hide Absorb, Over, Pending;
    var p := (c - BASE) / 8;
    assert c == Register(p, ISR);
  }

  lemma VisitSkips(xs: seq<Line>, other: nat -> Byte, c: nat)
    requires |xs| == PORTS && BASE <= c < BASE + 27 && (c - BASE) % 8 == ISR && !Pending(other, (c - BASE) / 8)
    ensures Visited(xs, xs, other, c, c, false)
  {
    hide Over, Pending;
  }

  lemma VisitStrays(xs: seq<Line>, ys: seq<Line>, other: nat -> Byte, c: nat, d: nat, hung: bool)
    requires |xs| == PORTS && IsAstray(c) && (hung || d == c || d == c - 2)
    requires var p := (c - BASE) / 8;
             ys == if (c - BASE) % 8 == RHR then xs[p := Dropped(xs[p])] else xs
    ensures Visited(xs, ys, other, c, d, hung)
  {
    hide Over, Pending, Dropped;
  }

  /** What a visit reads in a port's status register. */
  lemma StatusRead(chip: Chip, c: nat)
    requires |chip.fifos| == PORTS && BASE <= c < BASE + 27 && ((c - BASE) % 8 == ISR || IsAstray(c))
    ensures AfterIn(chip, c).other == chip.other && |AfterIn(chip, c).fifos| == PORTS
    ensures (c - BASE) % 8 == ISR ==> (c - BASE) / 8 < PORTS && c == Register((c - BASE) / 8, ISR)
    ensures (c - BASE) % 8 == ISR ==> (In(chip, c) % 2 == 0 <==> Pending(chip.other, (c - BASE) / 8))
  {
    var p := (c - BASE) / 8;
    assert (c - BASE) % 8 == ISR ==> c == BASE + 8 * p + ISR;
  }

  lemma SetOther(x: Sys, other: nat -> Byte)
    requires SysOk(x)
    ensures var y := x.(chip := x.chip.(other := other)); SysOk(y) && Lines(y) == Lines(x)
  {
    hide Ok, Queue, Inflight, RingAt;
    var y := x.(chip := x.chip.(other := other));
    forall p: nat | p < PORTS ensures RingOf(y, p) == RingOf(x, p) {}
    assert Lines(y) == Lines(x);
  }

  /** What the handler makes of the ports: those up to the first that overflows are
      served, the one behind it loses a character, and of the others each is left alone,
      loses one, or is served. */
  ghost predicate Handled(xs: seq<Line>, ys: seq<Line>, other: nat -> Byte) {
    && |xs| == |ys| == PORTS
    && var k := FirstOver(xs, other, 0);
       forall q :: 0 <= q < PORTS ==>
         if q <= k then ys[q] == Served(xs[q], Pending(other, q))
         else if q == k + 1 then ys[q] == Dropped(xs[q])
         else ys[q] in {xs[q], Dropped(xs[q]), Served(xs[q], Pending(other, q))}
  }

  /** A port is served as it wants to be exactly when no port before it overflows, unless
      no character waits at it or its ring is full; this is for all ports up to the one
      behind the first overflow. Of ports further on it depends on the memory before
      and behind the rings. */
  lemma PortServed(xs: seq<Line>, ys: seq<Line>, other: nat -> Byte, p: nat)
    requires Handled(xs, ys, other) && p < PORTS && |xs[p].queue| < SIZE
    requires forall q :: 0 <= q < p - 1 ==> !(Pending(other, q) && Over(xs[q]))
    ensures var x := Served(xs[p], Pending(other, p));
            (ys[p].queue == x.queue && ys[p].chip == x.chip) <==>
            (|| p == 0 || !(Pending(other, p - 1) && Over(xs[p - 1]))
             || xs[p].chip == [] || (Pending(other, p) && |xs[p].queue| == SIZE - 1))
  {
    hide Served, Dropped, Over, Pending;
    NextPortRight(xs[p], Pending(other, p));
  }

  /** For one: 32 characters wait at port 0 and an A at port 1, and all rings are empty.
      The A is gone, and not in the ring. */
  lemma OverflowInput(xs: seq<Line>, ys: seq<Line>, other: nat -> Byte)
    requires Handled(xs, ys, other) && Pending(other, 0) && Pending(other, 1)
    requires xs[0].queue == [] && |xs[0].chip| == SIZE && xs[1].queue == [] && xs[1].chip == [65]
    ensures Astray(xs, other) && ys[1].queue == [] && ys[1].chip == []
    ensures Served(xs[1], true).queue == [65] && Served(xs[1], true).chip == []
  {
    AbsorbLoses(xs[1]);
    assert FirstOver(xs, other, 0) == 0;
  }

  /** The ports before p are served. */
  ghost predicate OnTrack(xs: seq<Line>, ys: seq<Line>, other: nat -> Byte, k: nat, p: nat) {
    && |xs| == |ys| == PORTS && k == FirstOver(xs, other, 0) && p <= k
    && forall q :: 0 <= q < PORTS ==> ys[q] == if q < p then Served(xs[q], Pending(other, q)) else xs[q]
  }

  /** After port k overflowed, with C where it is. */
  ghost predicate OffTrack(xs: seq<Line>, ys: seq<Line>, other: nat -> Byte, k: nat, c: nat) {
    && |xs| == |ys| == PORTS && k == FirstOver(xs, other, 0) < PORTS && c >= Register(k + 1, RHR)
    && (match (c - BASE) % 8
        case 0 => true
        case 6 => true
        case 4 => c >= Register(k + 2, RHR)
        case 2 => c >= Register(k + 3, RHR)
        case _ => false)
    && forall q :: 0 <= q < PORTS ==>
         if q <= k then ys[q] == Served(xs[q], Pending(other, q))
         else if q == k + 1 then ys[q] == if c == Register(q, RHR) then xs[q] else Dropped(xs[q])
         else
           && (c <= Register(q, ISR) ==> ys[q] == xs[q])
           && ys[q] in {xs[q], Dropped(xs[q]), Served(xs[q], Pending(other, q))}
  }

  lemma OnStart(xs: seq<Line>, other: nat -> Byte)
    requires |xs| == PORTS
    ensures OnTrack(xs, xs, other, FirstOver(xs, other, 0), 0)
  {
  }

  lemma OnStep(xs: seq<Line>, ys: seq<Line>, zs: seq<Line>, other: nat -> Byte, k: nat, p: nat, d: nat, hung: bool)
    requires OnTrack(xs, ys, other, k, p) && p < PORTS && Visited(ys, zs, other, Register(p, ISR), d, hung)
    ensures !hung && p <= k
    ensures if p < k then OnTrack(xs, zs, other, k, p + 1) && d + 8 == Register(p + 1, ISR)
            else OffTrack(xs, zs, other, k, d + 8) && d + 8 == Register(p + 1, RHR)
  {
    hide Over, Served, Pending, Dropped;
  }

  lemma OffKind(xs: seq<Line>, ys: seq<Line>, other: nat -> Byte, k: nat, c: nat)
    requires OffTrack(xs, ys, other, k, c) && c < BASE + 27
    ensures BASE <= c && ((c - BASE) % 8 == ISR || IsAstray(c))
  {
  }

  lemma OffStep(xs: seq<Line>, ys: seq<Line>, zs: seq<Line>, other: nat -> Byte, k: nat, c: nat, d: nat, hung: bool)
    requires OffTrack(xs, ys, other, k, c) && Visited(ys, zs, other, c, d, hung)
    ensures if hung then Handled(xs, zs, other) && Astray(xs, other)
            else c <= d + 2 && OffTrack(xs, zs, other, k, d + 8)
  {
    hide Over, Served, Pending, Dropped, FirstOver;
  }

  lemma OnHandled(xs: seq<Line>, ys: seq<Line>, other: nat -> Byte, k: nat)
    requires OnTrack(xs, ys, other, k, PORTS)
    ensures Handled(xs, ys, other)
  {
  }

  lemma OffHandled(xs: seq<Line>, ys: seq<Line>, other: nat -> Byte, k: nat, c: nat)
    requires OffTrack(xs, ys, other, k, c) && (c > Register(k + 1, RHR) || c >= BASE + 27)
    ensures Handled(xs, ys, other)
  {
    hide Served, Dropped, Pending;
  }

  /** The loop of `qsint`: on its way to port p, or astray. */
  ghost predicate Scanning(xs: seq<Line>, ys: seq<Line>, other: nat -> Byte, k: nat, p: nat, right: bool, c: nat) {
    if right then OnTrack(xs, ys, other, k, p) && c == Register(p, ISR) else OffTrack(xs, ys, other, k, c)
  }

  lemma ScanStart(xs: seq<Line>, other: nat -> Byte)
    requires |xs| == PORTS
    ensures Scanning(xs, xs, other, FirstOver(xs, other, 0), 0, true, Register(0, ISR))
  {
    OnStart(xs, other);
  }

  lemma ScanAt(xs: seq<Line>, ys: seq<Line>, other: nat -> Byte, k: nat, p: nat, right: bool, c: nat)
    requires Scanning(xs, ys, other, k, p, right, c) && c < BASE + 27
    ensures BASE <= c && ((c - BASE) % 8 == ISR || IsAstray(c))
  {
    hide OnTrack, OffTrack;
    if !right { OffKind(xs, ys, other, k, c); }
  }

  lemma ScanStep(xs: seq<Line>, ys: seq<Line>, zs: seq<Line>, other: nat -> Byte, k: nat, p: nat, right: bool,
                 c: nat, d: nat, hung: bool)
    requires Scanning(xs, ys, other, k, p, right, c) && c < BASE + 27 && Visited(ys, zs, other, c, d, hung)
    ensures hung ==> Handled(xs, zs, other) && Astray(xs, other) && !right
    ensures !hung ==> Scanning(xs, zs, other, k, p + 1, right && d == c, d + 8) && c <= d + 2
    ensures right && d != c ==> (k < PORTS - 1 <==> c != Register(3, ISR))
  {
    hide OnTrack, OffTrack, Visited, Handled, Astray;
    if right { OnStep(xs, ys, zs, other, k, p, d, hung); } else { OffStep(xs, ys, zs, other, k, c, d, hung); }
  }

  lemma ScanEnd(xs: seq<Line>, ys: seq<Line>, other: nat -> Byte, k: nat, p: nat, right: bool, c: nat)
    requires Scanning(xs, ys, other, k, p, right, c) && c >= BASE + 27
    ensures Handled(xs, ys, other) && k == FirstOver(xs, other, 0) && (right ==> k == PORTS)
    ensures Astray(xs, other) <==> k < PORTS - 1
  {
    if right {
      assert p == PORTS;
      OnHandled(xs, ys, other, k);
    } else {
      OffHandled(xs, ys, other, k, c);
    }
  }

  // What consumers do.

  lemma OpStored(mem: seq<Byte>, p: nat, b: Byte, q: nat, pc: Pc, a: nat, l: nat)
    requires |mem| == MEMORY && p < PORTS && q < PORTS
    ensures var s, t := RingAt(mem, q, pc, a, l), RingAt(mem[Start(p) + 1 := b], q, pc, a, l);
            t == if p == q then s.(op := b) else s
  {
    var s, t := RingAt(mem, q, pc, a, l), RingAt(mem[Start(p) + 1 := b], q, pc, a, l);
    assert t.buf == s.buf;
  }

  /** The system after the consumer's next instruction. */
  function ExecutedSys(x: Sys): Sys
    requires SysOk(x) && (x.pc == StoreOp ==> x.a < 256) && (x.pc == Fetch ==> x.l < SIZE)
  {
    var s := RingOf(x, x.unit);
    var t := Executed(s);
    x.(mem := if s.pc == StoreOp then x.mem[Start(x.unit) + 1 := s.a] else x.mem, pc := t.pc, a := t.a, l := t.l,
       delivered := if s.pc == Fetch then x.delivered[x.unit := x.delivered[x.unit] + [s.buf[s.l]]] else x.delivered)
  }

  lemma ExecFacts(x: Sys)
    requires SysOk(x)
    ensures |x.mem| == MEMORY && x.unit < PORTS && |x.delivered| == PORTS
    ensures RingOf(x, x.unit) == RingAt(x.mem, x.unit, x.pc, x.a, x.l)
    ensures Ok(RingOf(x, x.unit)) && x.mem[Start(x.unit)] < SIZE && x.mem[Start(x.unit) + 1] < SIZE
    ensures RingOf(x, x.unit).pc == x.pc && RingOf(x, x.unit).a == x.a && RingOf(x, x.unit).l == x.l
    ensures (x.pc == StoreOp ==> x.a < SIZE) && (x.pc == Fetch ==> x.l < SIZE) && (x.pc == Compare ==> x.a < SIZE)
  {
  }

  lemma ExecLines(x: Sys)
    requires SysOk(x)
    ensures |x.mem| == MEMORY && x.unit < PORTS && |x.delivered| == PORTS
    ensures (x.pc == StoreOp ==> x.a < SIZE) && (x.pc == Fetch ==> x.l < SIZE) && (x.pc == Compare ==> x.a < SIZE)
    ensures x.mem[Start(x.unit)] < SIZE && x.mem[Start(x.unit) + 1] < SIZE
    ensures var y := ExecutedSys(x);
            SysOk(y) && Lines(y) == Lines(x)[x.unit := Step(Lines(x)[x.unit])]
  {
    hide Ok, Queue, Inflight, Executed, RingAt, Start;
    ExecFacts(x);
    var y, u, s := ExecutedSys(x), x.unit, RingOf(x, x.unit);
    ExecRing(x);
    ExecuteKeeps(s);
    StepIs(s, x.chip.fifos[u], x.delivered[u], x.logs[u]);
    forall p | 0 <= p < PORTS ensures RingOf(y, p) == if p == u then Executed(s) else RingOf(x, p) {
      if p != u && s.pc == StoreOp { OpStored(x.mem, u, s.a, p, Poll, 0, 0); }
    }
    forall p | 0 <= p < PORTS ensures Lines(y)[p] == Lines(x)[u := Step(Lines(x)[u])][p] {}
  }

  lemma ExecRing(x: Sys)
    requires SysOk(x) && x.unit < PORTS && (x.pc == StoreOp ==> x.a < SIZE) && (x.pc == Fetch ==> x.l < SIZE)
    ensures RingOf(ExecutedSys(x), x.unit) == Executed(RingOf(x, x.unit))
  {
    if x.pc == StoreOp {
      var t := Executed(RingOf(x, x.unit));
      OpStored(x.mem, x.unit, x.a, x.unit, t.pc, t.a, t.l);
    }
  }

  /** To the port as a queue, an instruction is a step. */
  lemma StepIs(s: State, chip: seq<Byte>, delivered: seq<Byte>, log: seq<Mark>)
    requires Ok(s)
    ensures s.pc == Fetch ==> s.l < SIZE
    ensures var t := Executed(s);
            var more := if s.pc == Fetch then delivered + [s.buf[s.l]] else delivered;
            && Ok(t)
            && Line(t.pc, Queue(t), Inflight(t), more, chip, log) ==
               Step(Line(s.pc, Queue(s), Inflight(s), delivered, chip, log))
  {
    ExecuteKeeps(s);
  }

  /** A consumer takes the first character. */
  function TakeOne(x: Line): Line {
    if x.queue == [] then x else x.(queue := x.queue[1..], delivered := x.delivered + [x.queue[0]])
  }

  function TakenSys(x: Sys, p: nat): Sys
    requires SysOk(x) && p < PORTS && x.mem[Start(p) + 1] < SIZE
  {
    var ix := Start(p);
    var op := x.mem[ix + 1];
    if op == x.mem[ix] then x
    else
      var got := x.delivered[p] + [x.mem[ix + 2 + op]];
      x.(mem := x.mem[ix + 1 := (op + 1) % SIZE], delivered := x.delivered[p := got])
  }

  lemma TakeRing(s: State)
    requires Ok(s) && s.pc == Poll
    ensures s.op == s.ip <==> Queue(s) == []
    ensures var t := s.(op := (s.op + 1) % SIZE);
            s.op != s.ip ==> Ok(t) && Queue(t) == Queue(s)[1..] && s.buf[s.op] == Queue(s)[0]
  {
    if s.op != s.ip {
      var r := s.(pc := StoreOp, a := Slot(s.op, 1), l := s.op);
      TakeKeeps(r);
      assert Queue(r) == Queue(s);
      assert Queue(s.(op := (s.op + 1) % SIZE)) == Queue(Executed(r));
      assert Slot(s.op, 0) == s.op;
    }
  }

  lemma TakeFacts(x: Sys, p: nat)
    requires SysOk(x) && p < PORTS && p != x.unit
    ensures |x.mem| == MEMORY && x.unit < PORTS && |x.delivered| == PORTS
    ensures RingOf(x, p) == RingAt(x.mem, p, Poll, 0, 0)
    ensures Ok(RingOf(x, p)) && x.mem[Start(p)] < SIZE && x.mem[Start(p) + 1] < SIZE
    ensures RingOf(x, p).ip == x.mem[Start(p)] && RingOf(x, p).op == x.mem[Start(p) + 1] && RingOf(x, p).pc == Poll
    ensures RingOf(x, p).buf[x.mem[Start(p) + 1]] == x.mem[Start(p) + 2 + x.mem[Start(p) + 1]]
    ensures Inflight(RingOf(x, p)) == []
    ensures var s := RingOf(x, p); forall op: nat :: op < SIZE && Ok(s.(op := op)) ==> Inflight(s.(op := op)) == []
  {
  }

  lemma TakeLines(x: Sys, p: nat)
    requires SysOk(x) && p < PORTS && p != x.unit
    ensures |x.mem| == MEMORY && x.unit < PORTS && |x.delivered| == PORTS
    ensures x.mem[Start(p)] < SIZE && x.mem[Start(p) + 1] < SIZE
    ensures var y := TakenSys(x, p);
            SysOk(y) && Lines(y) == Lines(x)[p := TakeOne(Lines(x)[p])]
  {
    hide Ok, Queue, Inflight, RingAt, Start;
    TakeFacts(x, p);
    var y, s := TakenSys(x, p), RingOf(x, p);
    TakeRing(s);
    if s.op != s.ip {
      var op := (s.op + 1) % SIZE;
      forall q | 0 <= q < PORTS ensures RingOf(y, q) == if q == p then s.(op := op) else RingOf(x, q) {
        OpStored(x.mem, p, op, q, x.pc, x.a, x.l);
        OpStored(x.mem, p, op, q, Poll, 0, 0);
      }
    }
    forall q | 0 <= q < PORTS ensures Lines(y)[q] == Lines(x)[p := TakeOne(Lines(x)[p])][q] {}
  }

  function Arrived(x: Line, b: Byte): Line {
    x.(chip := x.chip + [b])
  }

  function ArrivedChip(chip: Chip, p: nat, b: Byte): Chip
    requires p < |chip.fifos|
  {
    chip.(fifos := chip.fifos[p := chip.fifos[p] + [b]])
  }

  lemma ArriveLines(x: Sys, p: nat, b: Byte)
    requires SysOk(x) && p < PORTS
    ensures |x.chip.fifos| == PORTS
    ensures var y := x.(chip := ArrivedChip(x.chip, p, b));
            SysOk(y) && Lines(y) == Lines(x)[p := Arrived(Lines(x)[p], b)]
  {
    hide Ok, Queue, Inflight, RingAt;
    var y := x.(chip := ArrivedChip(x.chip, p, b));
    forall q: nat | q < PORTS ensures RingOf(y, q) == RingOf(x, q) {}
    forall q | 0 <= q < PORTS ensures Lines(y)[q] == Lines(x)[p := Arrived(Lines(x)[p], b)][q] {}
  }

  // Whole runs.

  /** What happens next: an instruction of the consumer, another consumer taking a
      character, a character reaching a port, or an interrupt, with what its handler reads
      in the registers besides data and line status. */
  datatype Event = Execute | Take(port: nat) | Arrive(port: nat, b: Byte) | Interrupt(other: nat -> Byte)

  predicate EventOk(e: Event, unit: nat) {
    match e
    case Take(port) => port < PORTS && port != unit
    case Arrive(port, _) => port < PORTS
    case _ => true
  }

  /** The event as it is to be for one port. */
  function Next(x: Line, e: Event, p: nat, unit: nat): Line {
    match e
    case Execute => if p == unit then Step(x) else x
    case Take(port) => if p == port then TakeOne(x) else x
    case Arrive(port, b) => if p == port then Arrived(x, b) else x
    case Interrupt(other) => Served(x, Pending(other, p))
  }

  function NextAll(x: Line, es: seq<Event>, p: nat, unit: nat): Line {
    if es == [] then x else Next(NextAll(x, es[..|es| - 1], p, unit), es[|es| - 1], p, unit)
  }

  function AllPorts(xs: seq<Line>, es: seq<Event>, unit: nat): (ys: seq<Line>)
    requires |xs| == PORTS
    ensures |ys| == PORTS && forall p :: 0 <= p < PORTS ==> ys[p] == NextAll(xs[p], es, p, unit)
  {
    seq(4, p requires 0 <= p < 4 => NextAll(xs[p], es, p, unit))
  }

  /** No interrupt but the last overflows one of the first three ports. */
  ghost predicate NoneAstray(xs: seq<Line>, es: seq<Event>, unit: nat)
    requires |xs| == PORTS
  {
    forall i :: 0 <= i < |es| && es[i].Interrupt? ==> !Astray(AllPorts(xs, es[..i], unit), es[i].other)
  }

  function Arrivals(es: seq<Event>, p: nat): seq<Byte> {
    if es == [] then []
    else
      var e := es[|es| - 1];
      Arrivals(es[..|es| - 1], p) + if e.Arrive? && e.port == p then [e.b] else []
  }

  /** For every port: what its consumer has got, the character on its way and the ring are
      together, in order, what was kept of the arrivals taken from the chip; and a
      character was kept exactly when it found fewer than 31 in the ring. */
  lemma {:induction false} RingIsFifo(x: Line, es: seq<Event>, p: nat, unit: nat)
    requires Fifo(x, []) && (p != unit ==> x.pc == Poll)
    requires forall i :: 0 <= i < |es| ==> EventOk(es[i], unit)
    ensures Fifo(NextAll(x, es, p, unit), Arrivals(es, p)) && (p != unit ==> NextAll(x, es, p, unit).pc == Poll)
  {
    hide Fifo, Step, Absorb, TakeOne, Arrived;
    if es != [] {
      var before, e := es[..|es| - 1], es[|es| - 1];
      assert EventOk(e, unit) && forall i :: 0 <= i < |before| ==> EventOk(before[i], unit);
      RingIsFifo(x, before, p, unit);
      var y, came := NextAll(x, before, p, unit), Arrivals(before, p);
      assert came + [] == came;
      match e
      case Execute => if p == unit { StepIsFifo(y, came); }
      case Take(port) =>
        if p == port {
          TakeIsFifo(y, came);
          TakePc(y);
        }
      case Arrive(port, b) =>
        if p == port {
          ArriveIsFifo(y, came, b);
          ArrivePc(y, b);
        }
      case Interrupt(other) =>
        if Pending(other, p) {
          AbsorbIsFifo(y, came);
          AbsorbPc(y);
        }
    }
  }

  lemma TakePc(x: Line)
    ensures TakeOne(x).pc == x.pc
  {
  }

  lemma ArrivePc(x: Line, b: Byte)
    ensures Arrived(x, b).pc == x.pc
  {
  }

  /** So what a consumer has got is a part of what was kept from the beginning on. */
  lemma GotIsKept(x: Line, came: seq<Byte>)
    requires Fifo(x, came)
    ensures x.delivered <= KeptChars(x.log)
  {
  }

  lemma {:induction false} AbsorbPc(x: Line)
    ensures Absorb(x).pc == x.pc
    decreases |x.chip|
  {
    if x.chip != [] && |x.queue| < SIZE - 1 { AbsorbPc(Taken(x)); }
  }

  lemma TakeIsFifo(x: Line, came: seq<Byte>)
    requires Fifo(x, came) && x.pc == Poll
    ensures Fifo(TakeOne(x), came)
  {
    var y := TakeOne(x);
    assert y.delivered + y.inflight + y.queue == x.delivered + x.inflight + x.queue;
  }

  lemma ArriveIsFifo(x: Line, came: seq<Byte>, b: Byte)
    requires Fifo(x, came)
    ensures Fifo(Arrived(x, b), came + [b])
  {
    assert Chars(x.log) + (x.chip + [b]) == came + [b];
  }

  /** The ports after one more event. */
  function NextPorts(xs: seq<Line>, e: Event, unit: nat): (ys: seq<Line>)
    requires |xs| == PORTS
    ensures |ys| == PORTS && forall p :: 0 <= p < PORTS ==> ys[p] == Next(xs[p], e, p, unit)
  {
    seq(4, p requires 0 <= p < 4 => Next(xs[p], e, p, unit))
  }

  lemma OneMore(xs: seq<Line>, es: seq<Event>, i: nat, unit: nat)
    requires |xs| == PORTS && i < |es|
    ensures AllPorts(xs, es[..i + 1], unit) == NextPorts(AllPorts(xs, es[..i], unit), es[i], unit)
    ensures NoneAstray(xs, es[..i + 1], unit) <==>
            NoneAstray(xs, es[..i], unit) && (es[i].Interrupt? ==> !Astray(AllPorts(xs, es[..i], unit), es[i].other))
  {
    hide Next, Astray, NextPorts, AllPorts;
    assert es[..i + 1][..i] == es[..i];
    assert forall k :: 0 <= k <= i ==> es[..i + 1][..k] == es[..k];
    assert forall k :: 0 <= k < i ==> es[..i][..k] == es[..k];
  }

  /** An event that leads nobody astray. */
  lemma EventIs(xs: seq<Line>, e: Event, ys: seq<Line>, unit: nat)
    requires |xs| == PORTS && unit < PORTS && EventOk(e, unit)
    requires match e
             case Execute => ys == xs[unit := Step(xs[unit])]
             case Take(port) => ys == xs[port := TakeOne(xs[port])]
             case Arrive(port, b) => ys == xs[port := Arrived(xs[port], b)]
             case Interrupt(other) => Handled(xs, ys, other) && !Astray(xs, other)
    ensures ys == NextPorts(xs, e, unit)
  {
    hide Step, TakeOne, Arrived, Served, Dropped, Pending;
  }

  /** Every interleaving of the four ports' business, up to an interrupt that overflows one
      of the first three ports while it serves them: all ports are queues, which lose a
      character only when it finds 31 in the ring. The handler of that interrupt serves
      the ports up to the one that overflows, and drops a character of the next port,
      whatever room that has. */
  method Run(m: Machine, es: seq<Event>, passes: nat) returns (n: nat)
    requires m.Valid() && passes >= SIZE && forall i :: 0 <= i < |es| ==> EventOk(es[i], m.unit)
    modifies m, m.mem
    ensures m.Valid() && n <= |es| && NoneAstray(old(m.Abs()), es[..n], m.unit)
    ensures n == |es| ==> m.Abs() == AllPorts(old(m.Abs()), es, m.unit)
    ensures n < |es| ==>
              var xs := AllPorts(old(m.Abs()), es[..n], m.unit);
              es[n].Interrupt? && Astray(xs, es[n].other) && Handled(xs, m.Abs(), es[n].other)
    ensures forall p :: 0 <= p < PORTS && Fifo(old(m.Abs())[p], []) && (p != m.unit ==> old(m.Abs())[p].pc == Poll) ==>
              Fifo(AllPorts(old(m.Abs()), es[..n], m.unit)[p], Arrivals(es[..n], p))
  {
    hide SysOk, Lines, Step, TakeOne, Arrived, Served, Dropped, Pending, Fifo, Handled, Astray, NoneAstray, Next,
         NextAll, NextPorts;
    ghost var xs := m.Abs();
    UnitOk(m.St());
    n := 0;
    StartPorts(xs, m.unit);
    while n < |es|
      invariant n <= |es| && m.Valid() && m.Abs() == AllPorts(xs, es[..n], m.unit) && NoneAstray(xs, es[..n], m.unit)
    {
      ghost var ys := m.Abs();
      var astray := false;
      match es[n] {
        case Execute => m.Instruction();
        case Take(port) => m.TakeOther(port);
        case Arrive(port, b) => m.Arrives(port, b);
        case Interrupt(other) =>
          var hung;
          hung, astray := m.QsInt(other, passes);
      }
      if astray { break; }
      EventIs(ys, es[n], m.Abs(), m.unit);
      OneMore(xs, es, n, m.unit);
      n := n + 1;
    }
    assert es[..|es|] == es;
    forall p | 0 <= p < PORTS && Fifo(xs[p], []) && (p != m.unit ==> xs[p].pc == Poll)
      ensures Fifo(AllPorts(xs, es[..n], m.unit)[p], Arrivals(es[..n], p))
    {
      RingIsFifo(xs[p], es[..n], p, m.unit);
    }
  }

  lemma UnitOk(x: Sys)
    requires SysOk(x)
    ensures x.unit < PORTS
  {
  }

  lemma StartPorts(xs: seq<Line>, unit: nat)
    requires |xs| == PORTS
    ensures AllPorts(xs, [], unit) == xs && NoneAstray(xs, [], unit)
  {
    assert forall p :: 0 <= p < PORTS ==> AllPorts(xs, [], unit)[p] == xs[p];
  }
}
