/** The receive rings of the serial ports (CHARIO.MAC). `qsins` and `qsinp` take
    characters out of a port's ring, one machine instruction at a time, and the interrupt
    routine `ttyint` may put characters in between any two of these instructions.

    `ttyint` as it stands takes its characters from the wrong register and puts them
    behind the wrong ring: `ttyrx` subtracts 2 from the number of the line status register
    to get that of the data register, which is 5 below. So the passes of its loop are
    modelled for any subtrahend. What the shipped one does is stated, then that 5 is the
    only one that is right, and then what the ring keeps with it. */
module ReceiveRing {
  import opened Blocks

  const SIZE := 32               // q.size
  const RING_BYTES := SIZE + 2   // input pointer, output pointer, buffer
  const PORTS := 4
  const BUFIN := 4352            // where `bufin` is in the memory that the routine can reach
  const MEMORY := 8928

  // The serial chip: its base address and the registers of a port, 8 apart.
  const BASE := 0xD0
  const RHR := 0
  const ISR := 2
  const LCR := 3
  const LSR := 5

  /** What `ttyrx` subtracts to get from the line status to the data register. */
  const SHIPPED := ISR + RHR

  function Register(port: nat, r: nat): nat {
    BASE + 8 * port + r
  }

  // A ring and its consumer.

  /** Slot k places behind slot p of the ring. */
  function Slot(p: nat, k: nat): nat
    requires p < SIZE && k <= SIZE
  {
    if p + k >= SIZE then p + k - SIZE else p + k
  }

  /** The next instruction of the consumer. */
  datatype Pc =
    | Poll        // ld a,(ix+q.op)      in ?cist
    | Compare     // sub (ix+q.ip)       zero: poll again
    | LoadOp      // ld a,(ix+q.op)      in qsinp
    | CopyOp      // ld l,a
    | Advance     // inc a
    | Mask        // and q.mask
    | StoreOp     // ld (ix+q.op),a
    | Address     // ld h,0 ... lda hl,(hl+ix)
    | Fetch       // ld a,(hl)

  /** A ring in memory and the registers of its consumer. */
  datatype State = State(buf: seq<Byte>, ip: nat, op: nat, pc: Pc, a: nat, l: nat)

  /** How many characters are in the ring, going by the pointers. */
  function Count(s: State): nat
    requires s.op < SIZE
  {
    if s.ip >= s.op then s.ip - s.op else s.ip + SIZE - s.op
  }

  predicate Registers(s: State)
    requires s.ip < SIZE && s.op < SIZE
  {
    match s.pc
    case Poll => true
    case Compare => s.a == s.op
    case LoadOp => Count(s) > 0
    case CopyOp => Count(s) > 0 && s.a == s.op
    case Advance => Count(s) > 0 && s.a == s.l == s.op
    case Mask => Count(s) > 0 && s.a == s.op + 1 && s.l == s.op
    case StoreOp => Count(s) > 0 && s.a == Slot(s.op, 1) && s.l == s.op
    case Address => s.l < SIZE && s.op == Slot(s.l, 1)
    case Fetch => s.l < SIZE && s.op == Slot(s.l, 1)
  }

  predicate Ok(s: State) {
    |s.buf| == SIZE && s.ip < SIZE && s.op < SIZE && Registers(s)
  }

  /** The characters in the ring, oldest first. */
  function Queue(s: State): (q: seq<Byte>)
    requires Ok(s)
    ensures |q| == Count(s) && forall k :: 0 <= k < |q| ==> q[k] == s.buf[Slot(s.op, k)]
  {
    seq<Byte>(Count(s), k requires 0 <= k < Count(s) => s.buf[Slot(s.op, k)])
  }

  /** The character that is off the ring by the pointers but not fetched yet. */
  function Inflight(s: State): seq<Byte>
    requires Ok(s)
  {
    if s.pc == Address || s.pc == Fetch then [s.buf[s.l]] else []
  }

  /** A character arriving with n in the ring would land on the one that the consumer has
      yet to fetch exactly when n is 31; this is what the slot kept empty is for. */
  lemma InsertMissesPending(l: nat, n: nat)
    requires l < SIZE && n < SIZE
    ensures Slot(Slot(l, 1), n) == l <==> n == SIZE - 1
  {
  }

  /** The ring after a character was put in. */
  function Inserted(s: State, c: Byte): State
    requires |s.buf| == SIZE && s.ip < SIZE
  {
    s.(buf := s.buf[s.ip := c], ip := Slot(s.ip, 1))
  }

  lemma InsertKeeps(s: State, c: Byte)
    requires Ok(s)
    ensures Slot(s.ip, 1) == s.op <==> Count(s) == SIZE - 1
    ensures Count(s) < SIZE - 1 ==> Ok(Inserted(s, c))
    ensures Count(s) < SIZE - 1 ==> Queue(Inserted(s, c)) == Queue(s) + [c] && Inflight(Inserted(s, c)) == Inflight(s)
  {
    if Count(s) < SIZE - 1 {
      var t := Inserted(s, c);
      assert s.ip == Slot(s.op, Count(s));
      if s.pc == Address || s.pc == Fetch {
        InsertMissesPending(s.l, Count(s));
      }
      assert Ok(t) && Count(t) == Count(s) + 1;
      forall k | 0 <= k < Count(s) ensures Queue(t)[k] == Queue(s)[k] {
        assert Slot(s.op, k) != s.ip;
      }
    }
  }

  /** The ring and the registers after the consumer's next instruction. */
  function Executed(s: State): State
    requires |s.buf| == SIZE && (s.pc == Fetch ==> s.l < SIZE)
  {
    match s.pc
    case Poll => s.(a := s.op, pc := Compare)
    case Compare =>
      var d := if s.a >= s.ip then s.a - s.ip else s.a + 256 - s.ip;
      s.(a := if d >= 0 then d else 0, pc := if d == 0 then Poll else LoadOp)
    case LoadOp => s.(a := s.op, pc := CopyOp)
    case CopyOp => s.(l := s.a, pc := Advance)
    case Advance => s.(a := s.a + 1, pc := Mask)
    case Mask => s.(a := s.a % SIZE, pc := StoreOp)
    case StoreOp => s.(op := s.a, pc := Address)
    case Address => s.(pc := Fetch)
    case Fetch => s.(a := s.buf[s.l], pc := Poll)
  }

  /** The store of the output pointer takes the first character off the ring, before it
      is fetched; the fetch then gets it, and no other instruction does anything. */
  lemma ExecuteKeeps(s: State)
    requires Ok(s)
    ensures Ok(Executed(s))
    ensures s.pc == StoreOp ==>
              Queue(s) != [] && Queue(Executed(s)) == Queue(s)[1..] && Inflight(Executed(s)) == [Queue(s)[0]]
    ensures s.pc == Fetch ==>
              && Queue(Executed(s)) == Queue(s)
              && Inflight(Executed(s)) == [] && Inflight(s) == [s.buf[s.l]]
    ensures s.pc != StoreOp && s.pc != Fetch ==>
              Queue(Executed(s)) == Queue(s) && Inflight(Executed(s)) == Inflight(s)
    ensures s.pc == Compare ==> (Executed(s).pc == Poll <==> Queue(s) == [])
  {
    if s.pc == StoreOp {
      TakeKeeps(s);
    } else {
      OthersKeep(s);
    }
  }

  lemma TakeKeeps(s: State)
    requires Ok(s) && s.pc == StoreOp
    ensures Ok(Executed(s))
    ensures Queue(s) != [] && Queue(Executed(s)) == Queue(s)[1..] && Inflight(Executed(s)) == [Queue(s)[0]]
  {
    var t := Executed(s);
    assert Slot(s.op, 0) == s.op && Count(t) == Count(s) - 1;
    forall k | 0 <= k < Count(t) ensures Queue(t)[k] == Queue(s)[1..][k] {
      assert Slot(t.op, k) == Slot(s.op, k + 1);
    }
  }

  lemma OthersKeep(s: State)
    requires Ok(s) && s.pc != StoreOp
    ensures Ok(Executed(s)) && Queue(Executed(s)) == Queue(s)
    ensures Inflight(Executed(s)) == if s.pc == Fetch then [] else Inflight(s)
    ensures s.pc == Compare ==> (Executed(s).pc == Poll <==> Queue(s) == [])
  {
    assert Ok(Executed(s)) && Count(Executed(s)) == Count(s);
  }

  // The line as a queue.

  /** A character that an interrupt took from the chip, and how many were in the ring. */
  datatype Mark = Mark(c: Byte, held: nat) {
    predicate Kept() { held < SIZE - 1 }
  }

  /** A port as a queue: the consumer's next instruction, the characters in the ring, the
      one on its way, those delivered, those waiting in the chip, and what became of all
      that interrupts took. */
  datatype Line = Line(pc: Pc, queue: seq<Byte>, inflight: seq<Byte>, delivered: seq<Byte>, chip: seq<Byte>,
    log: seq<Mark>)

  /** An interrupt: characters go into the ring, up to one that finds 31 there. */
  function Absorb(x: Line): Line
    decreases |x.chip|
  {
    if x.chip == [] then x
    else
      var m := Mark(x.chip[0], |x.queue|);
      var y := x.(chip := x.chip[1..], log := x.log + [m]);
      if m.Kept() then Absorb(y.(queue := x.queue + [m.c])) else y
  }

  /** The line after an interrupt took one character. */
  function Taken(x: Line): Line
    requires x.chip != []
  {
    var m := Mark(x.chip[0], |x.queue|);
    x.(chip := x.chip[1..], log := x.log + [m], queue := if m.Kept() then x.queue + [m.c] else x.queue)
  }

  lemma AbsorbTakes(x: Line)
    requires x.chip != []
    ensures Absorb(x) == if |x.queue| < SIZE - 1 then Absorb(Taken(x)) else Taken(x)
  {
  }

  /** An instruction of the consumer. */
  function Step(x: Line): Line {
    match x.pc
    case Poll => x.(pc := Compare)
    case Compare => x.(pc := if x.queue == [] then Poll else LoadOp)
    case LoadOp => x.(pc := CopyOp)
    case CopyOp => x.(pc := Advance)
    case Advance => x.(pc := Mask)
    case Mask => x.(pc := StoreOp)
    case StoreOp =>
      if x.queue == [] then x.(pc := Address) else x.(pc := Address, queue := x.queue[1..], inflight := [x.queue[0]])
    case Address => x.(pc := Fetch)
    case Fetch => x.(pc := Poll, inflight := [], delivered := x.delivered + x.inflight)
  }

  function Chars(log: seq<Mark>): seq<Byte> {
    if log == [] then [] else Chars(log[..|log| - 1]) + [log[|log| - 1].c]
  }

  function KeptChars(log: seq<Mark>): seq<Byte> {
    if log == [] then []
    else KeptChars(log[..|log| - 1]) + if log[|log| - 1].Kept() then [log[|log| - 1].c] else []
  }

  /** What holds of a line that `came` has arrived at. */
  predicate Fifo(x: Line, came: seq<Byte>) {
    && x.delivered + x.inflight + x.queue == KeptChars(x.log)
    && Chars(x.log) + x.chip == came
    && |x.queue| < SIZE && |x.inflight| <= 1
    && (x.pc == StoreOp || x.pc == Mask || x.pc == Advance || x.pc == CopyOp || x.pc == LoadOp ==> x.queue != [])
    && (x.inflight != [] ==> x.pc == Address || x.pc == Fetch)
  }

  lemma {:induction false} AbsorbIsFifo(x: Line, came: seq<Byte>)
    requires Fifo(x, came)
    ensures Fifo(Absorb(x), came)
    decreases |x.chip|
  {
    if x.chip != [] {
      var m := Mark(x.chip[0], |x.queue|);
      var y := x.(chip := x.chip[1..], log := x.log + [m]);
      assert y.log[..|x.log|] == x.log;
      assert Chars(y.log) + y.chip == Chars(x.log) + x.chip;
      if m.Kept() {
        var z := y.(queue := x.queue + [m.c]);
        assert z.delivered + z.inflight + z.queue == x.delivered + x.inflight + x.queue + [m.c];
        AbsorbIsFifo(z, came);
      }
    }
  }

  lemma StepIsFifo(x: Line, came: seq<Byte>)
    requires Fifo(x, came)
    ensures Fifo(Step(x), came)
  {
    var y := Step(x);
    assert y.delivered + y.inflight + y.queue == x.delivered + x.inflight + x.queue;
  }

  // The interrupt routine, with its register C.

  /** One bit to the right, around the end of a byte. */
  function Rrca(x: nat): (r: nat)
    requires x < 256
    ensures r < 256
  {
    x / 2 + 128 * (x % 2)
  }

  /** Which ring `ttyrx` goes to, from the register number in C. */
  function RingNumber(c: nat): (n: nat)
    requires c < 256
    ensures n < 256
  {
    Rrca(Rrca(Rrca((c + 256 - BASE) % 256)))
  }

  lemma RrcaOf(h: nat, b: nat)
    requires h < 128 && b < 2
    ensures Rrca(2 * h + b) == h + 128 * b
  {
  }

  /** A byte as its upper five bits and the lower three. */
  lemma Bits(y: nat) returns (q: nat, b0: nat, b1: nat, b2: nat)
    requires y < 256
    ensures q == y / 8 && q < 32 && b0 < 2 && b1 < 2 && b2 < 2 && y % 8 == 4 * b2 + 2 * b1 + b0
    ensures y == 2 * (4 * q + 2 * b2 + b1) + b0
  {
    var r := y % 8;
    q, b0, b1, b2 := y / 8, r % 2, r / 2 % 2, r / 4;
  }

  lemma RingNumberIs(c: nat)
    requires c < 256
    ensures var y := (c + 256 - BASE) % 256; RingNumber(c) == y / 8 + 32 * (y % 8)
  {
    hide Rrca;
    var y := (c + 256 - BASE) % 256;
    var q, b0, b1, b2 := Bits(y);
    RrcaOf(4 * q + 2 * b2 + b1, b0);
    RrcaOf(2 * q + b2 + 64 * b0, b1);
    RrcaOf(q + 32 * b0 + 64 * b1, b2);
  }

  /** Where the ring of a port, or what a ring number stands for, starts: `mult` takes
      the number for a signed one. */
  function Start(n: nat): (ix: nat)
    requires n < 256
    ensures ix == BUFIN + RING_BYTES * (if n < 128 then n else n - 256) && ix + 2 + 255 < MEMORY
  {
    BUFIN + RING_BYTES * (if n < 128 then n else n - 256)
  }

  /** Where `ttyrx` looks for the data register, from the line status register. */
  function DataRegister(c: nat, sub: nat): (d: nat)
    requires c < 256 && sub < 256
    ensures d < 256
  {
    (c + 256 - sub) % 256
  }

  /** A port's data register is found, its ring is found, and the way back to its line
      status register is found, each exactly with the subtrahend 5. */
  lemma RightSubtrahend(port: nat, sub: nat)
    requires port < PORTS && sub < 256
    ensures var d := DataRegister(Register(port, LSR), sub);
            && (d == Register(port, RHR) <==> sub == LSR - RHR)
            && (RingNumber(d) == port <==> sub == LSR - RHR)
            && ((d + LSR) % 256 == Register(port, LSR) <==> sub == LSR - RHR)
  {
    hide RingNumber;
    RightWay(port, sub);
    RightRing(port, sub);
  }

  lemma RightWay(port: nat, sub: nat)
    requires port < PORTS && sub < 256
    ensures var d := DataRegister(Register(port, LSR), sub);
            && (d == Register(port, RHR) <==> sub == LSR - RHR)
            && ((d + LSR) % 256 == Register(port, LSR) <==> sub == LSR - RHR)
  {
    var c := Register(port, LSR);
    assert DataRegister(c, sub) == if sub <= c then c - sub else c + 256 - sub;
  }

  lemma RightRing(port: nat, sub: nat)
    requires port < PORTS && sub < 256
    ensures RingNumber(DataRegister(Register(port, LSR), sub)) == port <==> sub == LSR - RHR
  {
    hide RingNumber, DataRegister;
    RegisterOffset(port, sub);
    var d := DataRegister(Register(port, LSR), sub);
    RingNumberIs(d);
    OwnRing((d + 256 - BASE) % 256, port);
  }

  /** How far behind the UARTs' registers the subtraction leads. */
  lemma RegisterOffset(port: nat, sub: nat)
    requires port < PORTS && sub < 256
    ensures (DataRegister(Register(port, LSR), sub) + 256 - BASE) % 256 ==
            if sub <= 8 * port + LSR then 8 * port + LSR - sub else 8 * port + LSR + 256 - sub
  {
    var c := Register(port, LSR);
    assert DataRegister(c, sub) == if sub <= c then c - sub else c + 256 - sub;
  }

  lemma OwnRing(y: nat, port: nat)
    requires y < 256 && port < PORTS
    ensures y / 8 + 32 * (y % 8) == port <==> y == 8 * port
  {
  }

  /** The shipped one finds the line control register, a ring that starts 3264 bytes behind
      the four, and as line status the next port's data register. */
  lemma ShippedSubtrahend(port: nat)
    requires port < PORTS
    ensures var d := DataRegister(Register(port, LSR), SHIPPED);
            && d == Register(port, LCR)
            && Start(RingNumber(d)) == Start(port) + 3264
            && (d + LSR) % 256 == Register(port + 1, RHR)
  {
    hide RingNumber;
    RingNumberIs(DataRegister(Register(port, LSR), SHIPPED));
  }

  /** The chip: what waits at its ports, and what its other registers, and the devices
      besides it, read as. */
  datatype Chip = Chip(fifos: seq<seq<Byte>>, other: nat -> Byte)

  /** Register r of some port. */
  predicate IsRegister(c: nat, r: nat) {
    c >= BASE && (c - BASE) % 8 == r && (c - BASE) / 8 < PORTS
  }

  /** What `in a,(c)` reads. */
  function In(chip: Chip, c: nat): Byte
    requires |chip.fifos| == PORTS
  {
    if IsRegister(c, RHR) && chip.fifos[(c - BASE) / 8] != [] then chip.fifos[(c - BASE) / 8][0]
    else if IsRegister(c, LSR) then (if chip.fifos[(c - BASE) / 8] != [] then 0x61 else 0x60)
    else chip.other(c)
  }

  /** The chip after that: a data register gives up the first character. */
  function AfterIn(chip: Chip, c: nat): (r: Chip)
    requires |chip.fifos| == PORTS
    ensures |r.fifos| == PORTS && r.other == chip.other
  {
    if IsRegister(c, RHR) && chip.fifos[(c - BASE) / 8] != [] then
      chip.(fifos := chip.fifos[(c - BASE) / 8 := chip.fifos[(c - BASE) / 8][1..]])
    else chip
  }

  /** How a pass from `ttymore` ends: nothing was there, the ring was full, or again. */
  datatype Pass = Idle | Lost | More

  datatype Result = Result(pass: Pass, mem: seq<Byte>, chip: Chip, c: nat)

  /** A pass from `ttymore` on. */
  function OnePass(mem: seq<Byte>, chip: Chip, c: nat, sub: nat): (r: Result)
    requires |mem| == MEMORY && |chip.fifos| == PORTS && c < 256 && sub < 256
    ensures |r.mem| == MEMORY && |r.chip.fifos| == PORTS && r.chip.other == chip.other && r.c < 256
  {
    var status, chip1 := In(chip, c), AfterIn(chip, c);
    if status % 2 == 0 then Result(Idle, mem, chip1, (c + 256 - (LSR - ISR)) % 256)
    else
      var d := DataRegister(c, sub);
      var b, chip2 := In(chip1, d), AfterIn(chip1, d);
      var ix := Start(RingNumber(d));
      if (mem[ix] + 1) % SIZE == mem[ix + 1] then Result(Lost, mem, chip2, d)
      else Result(More, Put(mem, ix, b), chip2, (d + LSR) % 256)
  }

  /** Memory after the ring at ix took a character. */
  function Put(mem: seq<Byte>, ix: nat, b: Byte): (r: seq<Byte>)
    requires |mem| == MEMORY && ix + 2 + 255 < MEMORY
    ensures |r| == MEMORY
  {
    mem[ix := (mem[ix] + 1) % SIZE][ix + 2 + mem[ix] := b]
  }

  /** The ring of a port, with a consumer's registers. */
  function RingAt(mem: seq<Byte>, port: nat, pc: Pc, a: nat, l: nat): (s: State)
    requires |mem| == MEMORY && port < PORTS
    ensures |s.buf| == SIZE
  {
    var ix := Start(port);
    State(mem[ix + 2..ix + RING_BYTES], mem[ix], mem[ix + 1], pc, a, l)
  }

  /** With the right subtrahend a pass takes one character of its port and puts it into
      its ring. After a loss C is at the data register, else where it belongs. */
  lemma RightPass(mem: seq<Byte>, chip: Chip, port: nat)
    requires |mem| == MEMORY && |chip.fifos| == PORTS && port < PORTS
    ensures var r := OnePass(mem, chip, Register(port, LSR), LSR - RHR);
            var ix := Start(port);
            if chip.fifos[port] == [] then r == Result(Idle, mem, chip, Register(port, ISR))
            else
              && r.chip == chip.(fifos := chip.fifos[port := chip.fifos[port][1..]])
              && if (mem[ix] + 1) % SIZE == mem[ix + 1]
                then r.pass == Lost && r.mem == mem && r.c == Register(port, RHR)
                 else r.pass == More && r.mem == Put(mem, ix, chip.fifos[port][0]) && r.c == Register(port, LSR)
  {
    RightSubtrahend(port, LSR - RHR);
    hide RingNumber;
  }

  /** A pass takes a waiting character off its port, for any contents of the ring, exactly
      with the right subtrahend. */
  lemma TakesItsCharacter(mem: seq<Byte>, chip: Chip, port: nat, sub: nat)
    requires |mem| == MEMORY && |chip.fifos| == PORTS && port < PORTS && sub < 256 && chip.fifos[port] != []
    ensures OnePass(mem, chip, Register(port, LSR), sub).chip.fifos[port] == chip.fifos[port][1..] <==> sub == LSR - RHR
  {
    hide RingNumber;
    RightSubtrahend(port, sub);
    assert |chip.fifos[port][1..]| < |chip.fifos[port]|;
  }

  /** As shipped, a pass for a port where a character waits takes none, from any port, and
      changes no ring. It ends with C at the line control register, or goes on with the
      next port's data register as line status. */
  lemma ShippedPass(mem: seq<Byte>, chip: Chip, port: nat)
    requires |mem| == MEMORY && |chip.fifos| == PORTS && port < PORTS && chip.fifos[port] != []
    ensures var r := OnePass(mem, chip, Register(port, LSR), SHIPPED);
            && r.chip == chip && r.mem[..Start(PORTS)] == mem[..Start(PORTS)]
            && (r.pass == Lost && r.c == Register(port, LCR)) != (r.pass == More && r.c == Register(port + 1, RHR))
  {
    ShippedSubtrahend(port);
    var d := DataRegister(Register(port, LSR), SHIPPED);
    ShippedRing(port);
    PutBehind(mem, RingNumber(d), In(chip, d));
    hide RingNumber, Put, Start;
  }

  lemma ShippedRing(port: nat)
    requires port < PORTS
    ensures RingNumber(DataRegister(Register(port, LSR), SHIPPED)) == 96 + port
  {
    hide RingNumber;
    RingNumberIs(DataRegister(Register(port, LSR), SHIPPED));
  }

  lemma PutBehind(mem: seq<Byte>, n: nat, b: Byte)
    requires |mem| == MEMORY && PORTS <= n < 128
    ensures Put(mem, Start(n), b)[..Start(PORTS)] == mem[..Start(PORTS)]
  {
  }

  /** For one: port 0 has an A, all rings are empty. The A stays where it is, and a byte
      3264 behind the start of the rings becomes 1. */
  lemma ShippedInput(mem: seq<Byte>, chip: Chip)
    requires |mem| == MEMORY && (forall i :: 0 <= i < MEMORY ==> mem[i] == 0) && chip.fifos == [[65], [], [], []]
    ensures var r := OnePass(mem, chip, Register(0, LSR), SHIPPED);
            var right := OnePass(mem, chip, Register(0, LSR), LSR - RHR);
            && r.chip.fifos[0] == [65] && r.mem[BUFIN] == 0 && r.mem[BUFIN + 3264] == 1
            && right.chip.fifos[0] == [] && right.mem[BUFIN] == 1 && right.mem[BUFIN + 2] == 65
  {
    ShippedPass(mem, chip, 0);
    RightPass(mem, chip, 0);
    ShippedSubtrahend(0);
    hide RingNumber;
    var r := OnePass(mem, chip, Register(0, LSR), SHIPPED);
    assert r.mem[BUFIN] == r.mem[..Start(PORTS)][BUFIN];
  }

  /** What a pass for a port, where a character waits, does to the ring of a unit. */
  ghost predicate PassFacts(mem: seq<Byte>, b: Byte, port: nat, unit: nat, pc: Pc, a: nat, l: nat)
    requires |mem| == MEMORY && port < PORTS && unit < PORTS && Ok(RingAt(mem, unit, pc, a, l))
  {
    var s, ix := RingAt(mem, unit, pc, a, l), Start(port);
    var t := RingAt(Put(mem, ix, b), unit, pc, a, l);
    && |Queue(s)| < SIZE
    && (port == unit ==> ((mem[ix] + 1) % SIZE == mem[ix + 1] <==> |Queue(s)| == SIZE - 1))
    && ((mem[ix] + 1) % SIZE != mem[ix + 1] ==>
          && Ok(t) && Inflight(t) == Inflight(s)
          && Queue(t) == if port == unit then Queue(s) + [b] else Queue(s))
  }

  lemma PassKeeps(mem: seq<Byte>, b: Byte, port: nat, unit: nat, pc: Pc, a: nat, l: nat)
    requires |mem| == MEMORY && port < PORTS && unit < PORTS
    requires mem[Start(port)] < SIZE && Ok(RingAt(mem, unit, pc, a, l))
    ensures PassFacts(mem, b, port, unit, pc, a, l)
  {
    var s := RingAt(mem, unit, pc, a, l);
    if port == unit {
      InsertKeeps(s, b);
      PutOwn(mem, unit, b, pc, a, l);
    } else {
      PutOther(mem, port, b, unit, pc, a, l);
    }
    hide Ok, Queue, Inflight, Put, Inserted;
  }

  lemma PutOwn(mem: seq<Byte>, port: nat, b: Byte, pc: Pc, a: nat, l: nat)
    requires |mem| == MEMORY && port < PORTS && mem[Start(port)] < SIZE
    ensures RingAt(Put(mem, Start(port), b), port, pc, a, l) == Inserted(RingAt(mem, port, pc, a, l), b)
  {
    var s, t := RingAt(mem, port, pc, a, l), RingAt(Put(mem, Start(port), b), port, pc, a, l);
    assert t.buf == s.buf[s.ip := b];
  }

  lemma PutOther(mem: seq<Byte>, port: nat, b: Byte, unit: nat, pc: Pc, a: nat, l: nat)
    requires |mem| == MEMORY && port < PORTS && unit < PORTS && unit != port && mem[Start(port)] < SIZE
    ensures RingAt(Put(mem, Start(port), b), unit, pc, a, l) == RingAt(mem, unit, pc, a, l)
  {
    var s, t := RingAt(mem, unit, pc, a, l), RingAt(Put(mem, Start(port), b), unit, pc, a, l);
    assert t.buf == s.buf;
  }

  /** Passes that do not start at a line status register: those that begin at a line
      control register, and where they lead to. They take no character off any port, and
      touch none of the four rings. */
  lemma AstrayPass(mem: seq<Byte>, chip: Chip, c: nat)
    requires |mem| == MEMORY && |chip.fifos| == PORTS
    requires BASE + 8 <= c < BASE + 32 && (c - BASE) % 8 in {1, 3, 7}
    ensures var r := OnePass(mem, chip, c, LSR - RHR);
            && r.chip == chip
            && r.c == (match r.pass case Idle => c - (LSR - ISR) case Lost => c - (LSR - RHR) case More => c)
            && forall port, pc, a, l :: 0 <= port < PORTS ==>
                 RingAt(r.mem, port, pc, a, l) == RingAt(mem, port, pc, a, l)
  {
    hide RingNumber, Put, Start, IsRegister, RingAt;
    var d := DataRegister(c, LSR - RHR);
    AstrayRing(c);
    var n := RingNumber(d);
    if (mem[Start(n)] + 1) % SIZE != mem[Start(n) + 1] {
      forall port, pc, a, l | 0 <= port < PORTS
        ensures RingAt(Put(mem, Start(n), In(chip, d)), port, pc, a, l) == RingAt(mem, port, pc, a, l)
      {
        FarAway(mem, n, In(chip, d), port, pc, a, l);
      }
    }
  }

  lemma AstrayRing(c: nat)
    requires BASE + 8 <= c < BASE + 32 && (c - BASE) % 8 in {1, 3, 7}
    ensures DataRegister(c, LSR - RHR) == c - (LSR - RHR) && 64 <= RingNumber(c - (LSR - RHR)) < 196
    ensures !IsRegister(c, LSR) && !IsRegister(c, RHR) && !IsRegister(c - (LSR - RHR), RHR)
  {
    hide RingNumber;
    RingNumberIs(c - (LSR - RHR));
  }

  lemma FarAway(mem: seq<Byte>, n: nat, b: Byte, port: nat, pc: Pc, a: nat, l: nat)
    requires |mem| == MEMORY && 64 <= n < 196 && port < PORTS
    ensures RingAt(Put(mem, Start(n), b), port, pc, a, l) == RingAt(mem, port, pc, a, l)
  {
    var s, t := RingAt(mem, port, pc, a, l), RingAt(Put(mem, Start(n), b), port, pc, a, l);
    assert t.buf == s.buf;
  }
}
