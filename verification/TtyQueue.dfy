/** Terminal input: the character queue (DEVIO.C) and the line editing that the terminal
    interrupt does on it (`tinproc`, DEVTTY.C). */
module TtyQueue {
  import opened Blocks

  const NL := 10
  const CR := 13
  const BS := 8
  const BLANK := 32
  const BELL := 7
  const CTRL_O := 15
  const ESC := 27
  const SIGINT := 2
  const SIGQUIT := 3

  /** Place k of a ring of n places, counted from h. */
  function Place(n: nat, h: nat, k: nat): nat
    requires h < n && k <= n
  {
    if h + k >= n then h + k - n else h + k
  }

  /** The n places of a ring from h on. */
  function Window(s: seq<Byte>, h: nat, n: nat): (q: seq<Byte>)
    requires h < |s| && n <= |s|
    ensures |q| == n && forall k :: 0 <= k < n ==> q[k] == s[Place(|s|, h, k)]
  {
    seq<Byte>(n, k requires 0 <= k < n => s[Place(|s|, h, k)])
  }

  lemma WindowGrows(s: seq<Byte>, h: nat, n: nat, c: Byte)
    requires h < |s| && n < |s|
    ensures Window(s[Place(|s|, h, n) := c], h, n + 1) == Window(s, h, n) + [c]
    ensures (Place(|s|, h, n) + 1 >= |s| ==> Place(|s|, h, n + 1) == 0)
    ensures (Place(|s|, h, n) + 1 < |s| ==> Place(|s|, h, n + 1) == Place(|s|, h, n) + 1)
  {
    var t := s[Place(|s|, h, n) := c];
    forall k | 0 <= k < n ensures Window(t, h, n + 1)[k] == Window(s, h, n)[k] {
      assert Place(|s|, h, k) != Place(|s|, h, n);
    }
  }

  lemma WindowShrinks(s: seq<Byte>, h: nat, n: nat)
    requires h < |s| && 0 < n <= |s|
    ensures Window(s, h, n) == [s[h]] + Window(s, Place(|s|, h, 1), n - 1)
    ensures Window(s, h, n) == Window(s, h, n - 1) + [s[Place(|s|, h, n - 1)]]
  {
    var g, w := Place(|s|, h, 1), Window(s, h, n);
    var rest, front := Window(s, g, n - 1), Window(s, h, n - 1);
    forall k | 0 <= k < n - 1 ensures rest[k] == w[1..][k] {
      assert Place(|s|, g, k) == Place(|s|, h, k + 1);
    }
    hide Window, Place;
    assert rest == w[1..];
    assert front == w[..n - 1];
  }

  class CharQueue {
    const base: array<Byte>
    var head: nat      // index of the next character to read
    var tail: nat      // index where the next one goes
    var count: nat

    ghost predicate Valid()
      reads this
    {
      && 0 < base.Length && head < base.Length && tail < base.Length && count <= base.Length
      && tail == Place(base.Length, head, count)
    }

    /** The characters in the queue, oldest first. */
    ghost function Contents(): (q: seq<Byte>)
      requires Valid()
      reads this, base
      ensures |q| == count
    {
      Window(base[..], head, count)
    }

    lemma Size()
      requires Valid()
      ensures |Contents()| == count
    {
    }

    constructor (size: nat)
      requires size > 0
      ensures Valid() && fresh(base) && base.Length == size && Contents() == []
    {
      base := new Byte[size];
      head, tail, count := 0, 0, 0;
    }

    /** `insq`: adds to the tail, if there is room. */
    method Insq(c: Byte) returns (ok: bool)
      requires Valid()
      modifies this`tail, this`count, base
      ensures Valid() && (ok <==> old(count) < base.Length)
      ensures Contents() == if ok then old(Contents()) + [c] else old(Contents())
    {
      hide Window;
      if count == base.Length {
        return false;
      }
      WindowGrows(base[..], head, count, c);
      assert base[..][tail := c] == base[..][Place(base.Length, head, count) := c];
      base[tail] := c;
      count := count + 1;
      tail := if tail + 1 >= base.Length then 0 else tail + 1;
      ok := true;
    }

    /** `remq`: removes the oldest character. */
    method Remq() returns (ok: bool, c: Byte)
      requires Valid()
      modifies this`head, this`count
      ensures Valid() && (ok <==> old(Contents()) != [])
      ensures ok ==> old(Contents()) == [c] + Contents()
      ensures !ok ==> Contents() == []
    {
      hide Window;
      if count == 0 {
        return false, 0;
      }
      WindowShrinks(base[..], head, count);
      c := base[head];
      count := count - 1;
      head := if head + 1 >= base.Length then 0 else head + 1;
      ok := true;
    }

    /** `uninsq`: removes the newest character. */
    method Uninsq() returns (ok: bool, c: Byte)
      requires Valid()
      modifies this`tail, this`count
      ensures Valid() && (ok <==> old(Contents()) != []) && (ok ==> count < base.Length)
      ensures ok ==> old(Contents()) == Contents() + [c]
      ensures !ok ==> Contents() == []
    {
      hide Window;
      if count == 0 {
        return false, 0;
      }
      WindowShrinks(base[..], head, count);
      count := count - 1;
      tail := if tail == 0 then base.Length - 1 else tail - 1;
      c := base[tail];
      ok := true;
    }

    /** `clrq`. */
    method Clrq()
      requires Valid()
      modifies this`head, this`tail, this`count
      ensures Valid() && Contents() == []
    {
      head, tail, count := 0, 0, 0;
    }
  }

  /** The completed lines of a queue: what is before and with its last newline. */
  function Completed(q: seq<Byte>): (r: seq<Byte>)
    ensures |r| <= |q| && r == q[..|r|]
  {
    if q == [] || q[|q| - 1] == NL then q else Completed(q[..|q| - 1])
  }

  /** Behind the completed lines there is no newline, and they end in one. */
  lemma {:induction false} CompletedIs(q: seq<Byte>)
    ensures forall i :: |Completed(q)| <= i < |q| ==> q[i] != NL
    ensures Completed(q) != [] ==> Completed(q)[|Completed(q)| - 1] == NL
  {
    if q != [] && q[|q| - 1] != NL { CompletedIs(q[..|q| - 1]); }
  }

  /** The settings of a terminal. */
  datatype Settings = Settings(erase: Byte, kill: Byte, intr: Byte, quit: Byte, start: Byte, stop: Byte, eof: Byte,
                               raw: bool, cbreak: bool, crmod: bool, echo: bool, plain: bool, ctlChar: bool,
                               uart: bool) {
    predicate Cooked() { !raw && !cbreak }
    predicate Cbreak() { !raw && cbreak }
    predicate RawOnly() { raw && !cbreak }
  }

  /** The character as it is looked at: without parity, unless the line is raw. */
  function Stripped(td: Settings, c: Byte): Byte {
    if !td.uart && !td.RawOnly() then c % 128 else c
  }

  function Mapped(td: Settings, c: Byte): Byte {
    if !td.ctlChar && (td.Cooked() || td.Cbreak()) && c == CR && td.crmod then NL else c
  }

  /** What a typed character asks for. */
  datatype Deed = Ignore | Erase | Kill | Interrupt | Quit | Flush | Stop | Start | Insert(c: Byte)

  /** The characters that cooked and cbreak mode look at. */
  function Special(td: Settings, c: Byte): Deed {
    var d := Mapped(td, c);
    if td.ctlChar || !(td.Cooked() || td.Cbreak()) then Insert(c)
    else if d == td.intr then Interrupt
    else if d == td.quit then Quit
    else if d == CTRL_O then Flush
    else if d == td.stop then Stop
    else if d == td.start then Start
    else Insert(d)
  }

  function DeedOf(td: Settings, c0: Byte): Deed {
    var c := Stripped(td, c0);
    if !td.uart && (c0 == ESC && td.plain) then Ignore
    else if !td.uart && !td.RawOnly() && c == 0 then Ignore
    else if td.Cooked() && !td.ctlChar && c == td.erase then Erase
    else if td.Cooked() && !td.ctlChar && c == td.kill then Kill
    else Special(td, c)
  }

  /** The queue after a character was typed. */
  function Typed(q: seq<Byte>, size: nat, deed: Deed): seq<Byte> {
    match deed
    case Erase => if q == [] || q[|q| - 1] == NL then q else q[..|q| - 1]
    case Kill => Completed(q)
    case Interrupt => []
    case Quit => []
    case Insert(c) => if |q| < size then q + [c] else q
    case _ => q
  }

  /** What rubs out n characters on the screen. */
  function RubOuts(td: Settings, n: nat): seq<Byte> {
    if !td.echo || n == 0 then [] else RubOuts(td, n - 1) + [BS, BLANK, BS]
  }

  /** What the terminal shows in answer to a character: an echo, or a beep without room. */
  function Shown(td: Settings, q: seq<Byte>, size: nat, deed: Deed): seq<Byte> {
    match deed
    case Erase => RubOuts(td, |q| - |Typed(q, size, Erase)|)
    case Kill => RubOuts(td, |q| - |Completed(q)|)
    case Insert(c) =>
      (if c == NL && td.crmod && td.echo then [CR] else []) +
      (if |q| >= size then [BELL] else if td.echo then [c] else [])
    case _ => []
  }

  function Stopped(deed: Deed, was: bool): bool {
    match deed
    case Stop => true
    case Start => false
    case Interrupt => false
    case Quit => false
    case _ => was
  }

  /** The interrupt character sends SIGQUIT, and the quit character SIGINT. */
  function Sent(deed: Deed): seq<int> {
    match deed
    case Interrupt => [SIGQUIT]
    case Quit => [SIGINT]
    case _ => []
  }

  function Flushing(deed: Deed, was: bool): bool {
    match deed
    case Flush => !was
    case Interrupt => false
    case Quit => false
    case _ => was
  }

  /** Readers are woken by a complete line, or by every character outside cooked mode. */
  function Wakes(td: Settings, deed: Deed): nat {
    if deed.Insert? && (!td.Cooked() || deed.c == NL || deed.c == td.eof) && !td.ctlChar then 1 else 0
  }

  /** Editing never touches a completed line. */
  lemma EditKeepsLines(q: seq<Byte>, size: nat, deed: Deed)
    requires deed != Interrupt && deed != Quit
    ensures Completed(q) <= Completed(Typed(q, size, deed))
  {
    CompletedIs(q);
    if deed.Insert? {
      assert (q + [deed.c])[..|q|] == q;
    }
  }

  /** One character is gone from the end, unless that is a newline or there is none. */
  predicate OneErased(q: seq<Byte>, r: seq<Byte>) {
    if q == [] || q[|q| - 1] == NL then r == q else |r| == |q| - 1 && r == q[..|r|]
  }

  /** All that is behind the last newline is gone, and nothing else. */
  predicate LineKilled(q: seq<Byte>, r: seq<Byte>) {
    && r <= q && (r == [] || r[|r| - 1] == NL)
    && forall i :: |r| <= i < |q| ==> q[i] != NL
  }

  /** Editing in cooked mode, by the character typed: q becomes r. */
  predicate Edits(td: Settings, q: seq<Byte>, size: nat, c0: Byte, r: seq<Byte>) {
    var c := if td.uart then c0 else c0 % 128;
    var d := if c == CR && td.crmod then NL else c;
    if !td.uart && (c == 0 || (c0 == ESC && td.plain)) then r == q
    else if c == td.erase then OneErased(q, r)
    else if c == td.kill then LineKilled(q, r)
    else if d in {td.intr, td.quit} then r == []
    else if d in {CTRL_O, td.stop, td.start} then r == q
    else r == if |q| < size then q + [d] else q
  }

  /** The control characters, by the character typed: the signals sent, and what becomes of
      the flags for stopped and for flushed output. */
  predicate Controls(td: Settings, c0: Byte, sent: seq<int>, stop: bool, stop': bool, flush: bool, flush': bool) {
    var c := if td.uart || td.RawOnly() then c0 else c0 % 128;
    var d := if c == CR && td.crmod then NL else c;
    if td.ctlChar || td.raw || (!td.uart && (c == 0 || (c0 == ESC && td.plain)))
       || (td.Cooked() && c in {td.erase, td.kill}) || d !in {td.intr, td.quit, CTRL_O, td.stop, td.start}
    then sent == [] && stop' == stop && flush' == flush
    else if d in {td.intr, td.quit} then sent == [if d == td.intr then SIGQUIT else SIGINT] && !stop' && !flush'
    else
      && sent == [] && flush' == (if d == CTRL_O then !flush else flush)
      && stop' == (if d == CTRL_O then stop else d == td.stop)
  }

  lemma ControlsAre(td: Settings, c0: Byte, stop: bool, flush: bool)
    ensures var deed := DeedOf(td, c0);
            Controls(td, c0, Sent(deed), stop, Stopped(deed, stop), flush, Flushing(deed, flush))
  {
  }

  lemma EditsLine(td: Settings, q: seq<Byte>, size: nat, c0: Byte)
    requires td.Cooked() && !td.ctlChar
    ensures Edits(td, q, size, c0, Typed(q, size, DeedOf(td, c0)))
  {
    CompletedIs(q);
  }

  lemma OneRubOut(td: Settings)
    ensures RubOuts(td, 0) == [] && RubOuts(td, 1) == if td.echo then [BS, BLANK, BS] else []
  {
  }

  lemma RubOutsMore(td: Settings, n: nat)
    ensures RubOuts(td, 0) == []
    ensures RubOuts(td, n + 1) == RubOuts(td, n) + if td.echo then [BS, BLANK, BS] else []
  {
  }

  lemma CompletedLast(q: seq<Byte>)
    ensures q == [] ==> Completed(q) == []
    ensures q != [] ==> Completed(q) == if q[|q| - 1] == NL then q else Completed(q[..|q| - 1])
  {
  }

  /** A terminal: its input queue, flags, the signals it sent, and its output. */
  class Terminal {
    const inq: CharQueue
    var td: Settings
    var stopflag: bool
    var flshflag: bool
    var signals: seq<int>
    var output: seq<Byte>
    var woken: nat             // how often readers were woken
    ghost var taken: seq<Byte>  // what readers have got so far

    ghost predicate Valid()
      reads this, inq
    {
      inq.Valid()
    }

    /** What cannot change any more: what was read, and completed lines. */
    ghost function Fixed(): seq<Byte>
      requires Valid()
      reads this, inq, inq.base
    {
      taken + Completed(inq.Contents())
    }

    constructor (size: nat, td: Settings)
      requires size > 0
      ensures Valid() && fresh(inq) && fresh(inq.base) && inq.base.Length == size && taken == [] && inq.Contents() == []
    {
      inq := new CharQueue(size);
      this.td := td;
      stopflag, flshflag, signals, output, woken, taken := false, false, [], [], 0, [];
    }

    method Echo(c: Byte)
      modifies this`output
      ensures output == if td.echo then old(output) + [c] else old(output)
    {
      if td.echo {
        output := output + [c];
      }
    }

    method RubOut()
      modifies this`output
      ensures output == old(output) + if td.echo then [BS, BLANK, BS] else []
    {
      Echo(BS);
      Echo(BLANK);
      Echo(BS);
    }

    /** The erase character. */
    method EraseOne()
      requires Valid()
      modifies this`output, inq, inq.base
      ensures Valid() && inq.Contents() == Typed(old(inq.Contents()), inq.base.Length, Erase)
      ensures output == old(output) + Shown(td, old(inq.Contents()), inq.base.Length, Erase)
    {
      OneRubOut(td);
      var ok, oc := inq.Uninsq();
      if ok {
        if oc == NL {
          var again := inq.Insq(oc);
        } else {
          RubOut();
        }
      }
    }

    /** The kill character. */
    method KillLine()
      requires Valid()
      modifies this`output, inq, inq.base
      ensures Valid() && inq.Contents() == Completed(old(inq.Contents()))
      ensures output == old(output) + Shown(td, old(inq.Contents()), inq.base.Length, Kill)
    {
      hide inq.Contents, Completed, RubOuts;
      RubOutsMore(td, 0);
      ghost var n := 0;
      inq.Size();
      while true
        invariant Valid() && Completed(inq.Contents()) == Completed(old(inq.Contents()))
        invariant |inq.Contents()| + n == |old(inq.Contents())| && output == old(output) + RubOuts(td, n)
        decreases |inq.Contents()|
      {
        ghost var q := inq.Contents();
        CompletedLast(q);
        var ok, oc := inq.Uninsq();
        if !ok {
          return;
        }
        assert q == inq.Contents() + [oc];
        if oc == NL {
          var again := inq.Insq(oc);
          return;
        }
        RubOut();
        RubOutsMore(td, n);
        n := n + 1;
      }
    }

    /** `tinproc`: a character arrives from the terminal. */
    method Tinproc(c0: Byte)
      requires Valid()
      modifies this`stopflag, this`flshflag, this`signals, this`output, this`woken, inq, inq.base
      ensures Valid() && inq.Contents() == Typed(old(inq.Contents()), inq.base.Length, DeedOf(td, c0))
      ensures signals == old(signals) + Sent(DeedOf(td, c0))
      ensures stopflag == Stopped(DeedOf(td, c0), old(stopflag)) && flshflag == Flushing(DeedOf(td, c0), old(flshflag))
      ensures woken == old(woken) + Wakes(td, DeedOf(td, c0))
      ensures output == old(output) + Shown(td, old(inq.Contents()), inq.base.Length, DeedOf(td, c0))
      ensures td.Cooked() && !td.ctlChar ==> Edits(td, old(inq.Contents()), inq.base.Length, c0, inq.Contents())
      ensures old(signals) <= signals
      ensures Controls(td, c0, signals[|old(signals)|..], old(stopflag), stopflag, old(flshflag), flshflag)
    {
      ControlsAre(td, c0, stopflag, flshflag);
      if td.Cooked() && !td.ctlChar {
        EditsLine(td, inq.Contents(), inq.base.Length, c0);
      }
      hide inq.Contents, inq.Valid, Completed, Special;
      var c := c0;
      if !td.uart {
        if c == ESC && td.plain {
          return;
        }
        if !td.RawOnly() {
          c := c % 128;
          if c == 0 {
            return;
          }
        }
      }
      if td.Cooked() && !td.ctlChar {
        if c == td.erase {
          EraseOne();
          return;
        }
        if c == td.kill {
          KillLine();
          return;
        }
      }
      Control(c);
    }

    /** An interrupt or quit character: the signal is sent and the input thrown away. */
    method Break(sig: int)
      requires Valid()
      modifies this`stopflag, this`flshflag, this`signals, inq
      ensures Valid() && inq.Contents() == [] && signals == old(signals) + [sig] && !stopflag && !flshflag
    {
      hide inq.Contents;
      signals := signals + [sig];
      inq.Clrq();
      stopflag, flshflag := false, false;
    }

    /** The part of `tinproc` behind the line editing. */
    method Control(c0: Byte)
      requires Valid()
      modifies this`stopflag, this`flshflag, this`signals, this`output, this`woken, inq, inq.base
      ensures Valid() && inq.Contents() == Typed(old(inq.Contents()), inq.base.Length, Special(td, c0))
      ensures signals == old(signals) + Sent(Special(td, c0))
      ensures stopflag == Stopped(Special(td, c0), old(stopflag))
      ensures flshflag == Flushing(Special(td, c0), old(flshflag))
      ensures woken == old(woken) + Wakes(td, Special(td, c0))
      ensures output == old(output) + Shown(td, old(inq.Contents()), inq.base.Length, Special(td, c0))
    {
      hide inq.Contents, inq.Valid, Completed;
      var c := c0;
      if !td.ctlChar && (td.Cooked() || td.Cbreak()) {
        if c == CR && td.crmod {
          c := NL;
        }
        if c == td.intr {
          Break(SIGQUIT);
          return;
        }
        if c == td.quit {
          Break(SIGINT);
          return;
        }
        if c == CTRL_O {
          flshflag := !flshflag;
          return;
        }
        if c == td.stop {
          stopflag := true;
          return;
        }
        if c == td.start {
          stopflag := false;
          return;
        }
      }
      Accept(c);
    }

    /** The end of `tinproc`: the character goes into the queue. */
    method Accept(c: Byte)
      requires Valid()
      modifies this`output, this`woken, inq, inq.base
      ensures Valid() && inq.Contents() == Typed(old(inq.Contents()), inq.base.Length, Insert(c))
      ensures woken == old(woken) + Wakes(td, Insert(c))
      ensures output == old(output) + Shown(td, old(inq.Contents()), inq.base.Length, Insert(c))
    {
      hide inq.Contents;
      if c == NL && td.crmod {
        Echo(CR);
      }
      inq.Size();
      var ok := inq.Insq(c);
      if ok {
        Echo(c);
      } else {
        output := output + [BELL];
      }
      if (!td.Cooked() || c == NL || c == td.eof) && !td.ctlChar {
        woken := woken + 1;
      }
    }

    /** A reader takes a character, if there is one. */
    method Take() returns (ok: bool, c: Byte)
      requires Valid()
      modifies this`taken, inq
      ensures Valid() && (ok <==> old(inq.Contents()) != [])
      ensures taken == old(taken) + (if ok then [c] else [])
      ensures if ok then old(inq.Contents()) == [c] + inq.Contents() else inq.Contents() == []
      ensures old(taken) + old(inq.Contents()) == taken + inq.Contents()
      ensures old(Fixed()) <= Fixed()
    {
      hide inq.Contents;
      ghost var q := inq.Contents();
      ok, c := inq.Remq();
      if ok {
        taken := taken + [c];
        CompletedTail(c, inq.Contents());
      }
    }
  }

  /** Taking the first character off leaves the rest of the completed lines. */
  lemma {:induction false} CompletedTail(c: Byte, q: seq<Byte>)
    ensures Completed([c] + q) == if Completed([c] + q) == [] then [] else [c] + Completed(q)
    ensures Completed([c] + q) == [] ==> Completed(q) == []
  {
    var all := [c] + q;
    if q == [] {
      assert all[..0] == [];
    } else {
      assert all[..|all| - 1] == [c] + q[..|q| - 1];
      assert all[|all| - 1] == q[|q| - 1];
      if q[|q| - 1] != NL { CompletedTail(c, q[..|q| - 1]); }
    }
  }

  datatype Event = Key(c: Byte) | Read

  /** A terminal and what readers have got from it. */
  datatype Snap = Snap(queue: seq<Byte>, taken: seq<Byte>, stop: bool, flush: bool, signals: seq<int>,
                       output: seq<Byte>, woken: nat)

  ghost function SnapOf(t: Terminal): Snap
    requires t.Valid()
    reads t, t.inq, t.inq.base
  {
    Snap(t.inq.Contents(), t.taken, t.stopflag, t.flshflag, t.signals, t.output, t.woken)
  }

  /** What an event makes of these. */
  predicate Step(td: Settings, size: nat, x: Snap, e: Event, y: Snap) {
    match e
    case Key(c) =>
      var d := DeedOf(td, c);
      y == Snap(Typed(x.queue, size, d), x.taken, Stopped(d, x.stop), Flushing(d, x.flush), x.signals + Sent(d),
                x.output + Shown(td, x.queue, size, d), x.woken + Wakes(td, d))
    case Read =>
      if x.queue == [] then y == x else y == x.(queue := x.queue[1..], taken := x.taken + [x.queue[0]])
  }

  /** One event. Without an interrupt or quit character, what was read and what was a
      completed line stays as it was. */
  method Act(t: Terminal, e: Event)
    requires t.Valid()
    modifies t`stopflag, t`flshflag, t`signals, t`output, t`woken, t`taken, t.inq, t.inq.base
    ensures t.Valid() && Step(t.td, t.inq.base.Length, old(SnapOf(t)), e, SnapOf(t))
    ensures Breaks(t.td, e) || old(t.Fixed()) <= t.Fixed()
  {
    hide t.inq.Contents, t.inq.Valid, Completed, Typed, DeedOf, Shown;
    match e
    case Key(c) =>
      var d := DeedOf(t.td, c);
      if d != Interrupt && d != Quit {
        EditKeepsLines(t.inq.Contents(), t.inq.base.Length, d);
      }
      t.Tinproc(c);
    case Read =>
      var ok, c := t.Take();
  }

  predicate Breaks(td: Settings, e: Event) {
    e.Key? && DeedOf(td, e.c) in {Interrupt, Quit}
  }

  /** Over any typing and reading the states are those that the events call for one after
      the other; without interrupt and quit characters what was read and what was a
      completed line stays as it was, from each state on. */
  method Run(t: Terminal, events: seq<Event>) returns (ghost xs: seq<Snap>)
    requires t.Valid()
    modifies t`stopflag, t`flshflag, t`signals, t`output, t`woken, t`taken, t.inq, t.inq.base
    ensures t.Valid() && |xs| == |events| + 1 && xs[0] == old(SnapOf(t)) && xs[|events|] == SnapOf(t)
    ensures forall i :: 0 <= i < |events| ==> Step(t.td, t.inq.base.Length, xs[i], events[i], xs[i + 1])
    ensures forall i :: 0 <= i < |events| && !Breaks(t.td, events[i]) ==>
      xs[i].taken + Completed(xs[i].queue) <= xs[i + 1].taken + Completed(xs[i + 1].queue)
    ensures (forall i :: 0 <= i < |events| ==> !Breaks(t.td, events[i])) ==> old(t.Fixed()) <= t.Fixed()
  {
    hide t.inq.Contents, t.inq.Valid, Completed, Step, Breaks;
    xs := [SnapOf(t)];
    for i := 0 to |events|
      invariant t.Valid() && |xs| == i + 1 && xs[0] == old(SnapOf(t)) && xs[i] == SnapOf(t)
      invariant forall j :: 0 <= j < i ==> Step(t.td, t.inq.base.Length, xs[j], events[j], xs[j + 1])
      invariant forall j :: 0 <= j < i && !Breaks(t.td, events[j]) ==>
        xs[j].taken + Completed(xs[j].queue) <= xs[j + 1].taken + Completed(xs[j + 1].queue)
      invariant (forall j :: 0 <= j < i ==> !Breaks(t.td, events[j])) ==> old(t.Fixed()) <= t.Fixed()
    {
      Act(t, events[i]);
      xs := xs + [SnapOf(t)];
    }
  }
}
