/** Pipes with one reading and one writing end (SCALL1.C): `_pipe`, and the pipe cases
    of `readi` and `writei` over a ring of 18 blocks. The two ends run in different
    processes; a call that has to sleep gives up the processor only at its test, so
    every interleaving of the two is a sequence of the atomic steps below. */
module Pipes {
  import opened Basics
  import opened Blocks
  import opened WriteCaches
  import opened BufferPools
  import opened FreeChains
  import opened BlockTrees
  import opened Truncations
  import opened Spaces
  import opened FileSystems
  import opened Offsets
  import opened FileIo

  const PIPE_MAX := 16 * 512

  /** How a step of a call ends: it moved data, it sleeps and will test again, the other
      end is closed, or a copy ran over the end of a buffer. */
  datatype Outcome = Moved | Sleeps | Closed | Overran

  /** A new inode becomes a pipe: the blocks of the device stay partitioned exactly when
      the block numbers in the inode were zero. */
  lemma PipeInode(s: Fs, t: Fs, ino: nat)
    requires Partition(s) && ino < |s.inodes| && !s.inodes[ino].HasTree()
    requires t == s.(inodes := s.inodes[ino := s.inodes[ino].(mode := F_PIPE)])
    ensures FsShape(t) && (Partition(t) <==> s.inodes[ino].addr == NoBlocks())
    ensures s.inodes[ino].addr == NoBlocks() ==> SameBytes(s, t)
  {
    if s.inodes[ino].addr == NoBlocks() {
      forall loc ensures At(t, loc) == At(s, loc) {}
      forall loc ensures Owned(t, loc) { assert Owned(s, loc); }
      forall b: nat ensures Located(t, b) { assert Located(s, b); }
    } else {
      var k :| 0 <= k < 20 && s.inodes[ino].addr[k] != 0;
      var b := s.inodes[ino].addr[k];
      assert At(t, Root(ino, k)) == b && At(s, Root(ino, k)) == 0;
      assert Located(s, b);
      assert !Owned(t, Root(ino, k));
    }
  }

  /** What a pipe is: the inode's size is the number of unread bytes, they are in the
      ring from the reader's position on, and the writer's position is behind them. */
  ghost predicate PipeHolds(s: Fs, ino: nat, rd: Off, wr: Off, unread: seq<Byte>)
    requires FsShape(s)
  {
    && ino < |s.inodes| && s.inodes[ino].mode == F_PIPE
    && Normal(s.inodes[ino].size) && Pos(s.inodes[ino].size) == |unread| <= PIPE_MAX
    && Normal(rd) && Pos(rd) < RING && Normal(wr) && Pos(wr) == Advance(Pos(rd), |unread|, RING) < RING
    && ReadFrom(s, ino, Pos(rd), RING, unread)
  }

  lemma NewPipe(s: Fs, t: Fs, ino: nat)
    requires Partition(s) && ino < |s.inodes| && !s.inodes[ino].HasTree()
    requires t == s.(inodes := s.inodes[ino := s.inodes[ino].(mode := F_PIPE)])
    ensures FsShape(t) && (Partition(t) <==> s.inodes[ino].addr == NoBlocks())
    ensures PipeHolds(t, ino, Off(0, 0), Off(0, 0), []) <==> s.inodes[ino].size == Off(0, 0)
    ensures s.inodes[ino].addr == NoBlocks() ==> SameBytes(s, t)
  {
    hide ByteAt, At, Partition, SameBytes, FsShape, Normal, Pos, ReadFrom, Advance;
    PipeInode(s, t, ino);
    ZeroPos(s.inodes[ino].size);
    ZeroPos(Off(0, 0));
    ReadNothing(t, ino, 0, RING);
  }

  lemma ZeroPos(o: Off)
    ensures Normal(o) && Pos(o) == 0 <==> o.blkno == 0 && o.offset == 0
  {
  }

  /** Only the mode, the size and the bytes of its own inode matter to a pipe. */
  lemma Undisturbed(s: Fs, t: Fs, ino: nat, rd: Off, wr: Off, unread: seq<Byte>)
    requires FsShape(s) && FsShape(t) && PipeHolds(s, ino, rd, wr, unread)
    requires ino < |t.inodes| && t.inodes[ino].mode == F_PIPE && t.inodes[ino].size == s.inodes[ino].size
    requires forall pos: nat {:trigger SameByte(s, t, ino, pos)} :: pos < RING ==> SameByte(s, t, ino, pos)
    ensures PipeHolds(t, ino, rd, wr, unread)
  {
    forall k | 0 <= k < |unread| ensures unread[k] == ByteAt(t, ino, Advance(Pos(rd), k, RING)) {
      assert SameByte(s, t, ino, Advance(Pos(rd), k, RING));
    }
  }

  lemma AdvanceAdds(p0: int, n: nat, k: nat)
    requires 0 <= p0 < RING && n + k <= RING
    ensures 0 <= Advance(p0, n, RING) < RING
    ensures Advance(Advance(p0, n, RING), k, RING) == Advance(p0, n + k, RING) < RING
  {
  }

  /** Storing behind the unread bytes leaves them alone, because 8192 bytes are less
      than a turn of the ring. */
  lemma WriteExtends(s: Fs, t: Fs, ino: nat, r: nat, w: nat, unread: seq<Byte>, more: seq<Byte>)
    requires FsShape(s) && FsShape(t) && r < RING && w == Advance(r, |unread|, RING) < RING
    requires |unread| + |more| <= PIPE_MAX
    requires ReadFrom(s, ino, r, RING, unread) && Wrote(s, t, ino, w, RING, more)
    ensures ReadFrom(t, ino, r, RING, unread + more)
  {
    hide ByteAt, Wrote, FsShape;
    forall k: nat | k < |unread + more| ensures (unread + more)[k] == ByteAt(t, ino, Advance(r, k, RING)) {
      ByteBehind(s, t, ino, r, w, unread, more, k);
    }
  }

  lemma ByteBehind(s: Fs, t: Fs, ino: nat, r: nat, w: nat, unread: seq<Byte>, more: seq<Byte>, k: nat)
    requires FsShape(s) && FsShape(t) && r < RING && w == Advance(r, |unread|, RING) < RING
    requires |unread| + |more| <= PIPE_MAX && k < |unread| + |more|
    requires ReadFrom(s, ino, r, RING, unread) && Wrote(s, t, ino, w, RING, more)
    ensures ByteAt(t, ino, Advance(r, k, RING)) == (unread + more)[k]
  {
    hide ByteAt;
    var pos: nat := Advance(r, k, RING);
    assert Ahead(w, pos, RING) == if k >= |unread| then k - |unread| else k - |unread| + RING;
    assert WroteByte(s, t, ino, w, RING, more, ino, pos);
  }

  /** Reading takes the oldest unread bytes and leaves the others in place. */
  lemma ReadAdvances(s: Fs, t: Fs, ino: nat, r: nat, unread: seq<Byte>, n: nat, data: seq<Byte>)
    requires FsShape(s) && FsShape(t) && r < RING && n <= |unread| <= PIPE_MAX && SameBytes(s, t)
    requires ReadFrom(s, ino, r, RING, unread) && |data| == n && ReadFrom(s, ino, r, RING, data)
    ensures data == unread[..n]
    ensures 0 <= Advance(r, n, RING) < RING && ReadFrom(t, ino, Advance(r, n, RING), RING, unread[n..])
  {
    hide ByteAt, SameBytes, FsShape;
    forall k: nat | k < |unread| - n ensures unread[n..][k] == ByteAt(t, ino, Advance(Advance(r, n, RING), k, RING)) {
      ByteAhead(s, t, ino, r, unread, n, k);
    }
  }

  lemma ByteAhead(s: Fs, t: Fs, ino: nat, r: nat, unread: seq<Byte>, n: nat, k: nat)
    requires FsShape(s) && FsShape(t) && r < RING && n + k < |unread| <= PIPE_MAX && SameBytes(s, t)
    requires ReadFrom(s, ino, r, RING, unread)
    ensures ByteAt(t, ino, Advance(Advance(r, n, RING), k, RING)) == unread[n + k]
  {
    hide ByteAt;
    assert Advance(Advance(r, n, RING), k, RING) == Advance(r, n + k, RING);
    assert SameByte(s, t, ino, Advance(r, n + k, RING));
  }

  class Pipe {
    const fs: FileSystem
    const ino: nat
    var refs: nat    // c_refs: open ends
    var rd: Off      // o_ptr of the reading end
    var wr: Off      // o_ptr of the writing end

    ghost var got: seq<Byte>      // what the reader has received
    ghost var unread: seq<Byte>   // what was written behind it

    ghost predicate Valid()
      reads this, fs, fs.pool, fs.pool.cache
    {
      fs.Valid() && PipeHolds(fs.St(), ino, rd, wr, unread)
    }

    /** Nothing else on the device is held, so that both ends can run. */
    ghost predicate Ready()
      reads this, fs, fs.pool
    {
      fs.NoneHeld() && |fs.pool.holds| + 2 <= NBUFS
    }

    ghost function Abs(): State
      reads this
    {
      State(got, unread, refs)
    }

    lemma Backlog()
      requires Valid()
      ensures |unread| <= PIPE_MAX
    {
    }

    /** `_pipe`, given the inode that `i_alloc` found: it is a pipe exactly when its block
        numbers and its size are zero, for `_pipe` clears neither. */
    constructor (fs: FileSystem, ino: nat)
      requires fs.Valid() && ino < |fs.inodes| && !fs.inodes[ino].HasTree()
      modifies fs`inodes
      ensures this.fs == fs && this.ino == ino && refs == 2 && unread == got == []
      ensures Valid() <==> old(fs.inodes)[ino].addr == NoBlocks() && old(fs.inodes)[ino].size == Off(0, 0)
      ensures FsShape(old(fs.St())) && (Valid() ==> SameBytes(old(fs.St()), fs.St()))
      ensures fs.inodes == old(fs.inodes)[ino := old(fs.inodes)[ino].(mode := F_PIPE)]
    {
      hide fs.DevOk, Chain, Partition, PipeHolds, SameBytes, NoDup;
      this.fs, this.ino := fs, ino;
      refs, rd, wr, unread, got := 2, Off(0, 0), Off(0, 0), [], [];
      new;
      ghost var s := fs.St();
      fs.inodes := fs.inodes[ino := fs.inodes[ino].(mode := F_PIPE)];
      NewPipe(s, fs.St(), ino);
    }

    /** One turn of a `write` call: the test, and if there is room the whole transfer. */
    method Write(data: seq<Byte>) returns (r: Outcome, ghost done: nat)
      requires Valid() && Ready() && |data| < 65536
      modifies this`wr, this`unread, fs, fs.pool, fs.pool.cache
      ensures Valid() && Ready() && done <= |data|
      ensures unread == old(unread) + data[..done]
      ensures r == if |data| <= PIPE_MAX - |old(unread)| then Moved else if refs == 1 then Closed else Sleeps
      ensures old(fs.Room(ino)) ==> fs.Room(ino) && (r == Moved ==> done == |data|)
      ensures r == Moved ==> MuchStored(old(fs.St()), ino, Pos(old(wr)), RING, |data|, done, false)
      ensures r == Moved && done < |data| ==> fs.stack == [] && fs.error == ENOSPC
      ensures r == Closed ==> done == 0 && fs.error == EPIPE
      ensures r == Sleeps ==> done == 0 && fs.error == old(fs.error)
      ensures r != Moved ==> fs.St() == old(fs.St())
      ensures forall i: nat, pos: nat :: i != ino ==> FsShape(old(fs.St())) && SameByte(old(fs.St()), fs.St(), i, pos)
      ensures |fs.inodes| == |old(fs.inodes)| && SizeSet(old(fs.inodes), fs.inodes, ino, fs.inodes[ino].size)
    {
      hide Took, Need, MuchStored, fs.Room, Holes, At, fs.DevOk, fs.FreeOk, FsShape, Partition, ByteAt, Names,
           ReadFrom, Advance;
      ghost var s := fs.St();
      var size := fs.inodes[ino].size;
      done := 0;
      assert data[..0] == [] && unread + [] == unread;
      if |data| > PIPE_MAX - Pos(size) {
        if refs == 1 {
          fs.error := EPIPE;
          return Closed, 0;
        }
        return Sleeps, 0;
      }
      r := Moved;
      var off, n, _ := WriteLoop(fs, ino, wr, data, true);
      done := n;
      forall i: nat, pos: nat | i != ino ensures SameByte(s, fs.St(), i, pos) {
        assert WroteByte(s, fs.St(), ino, Pos(wr), RING, data[..done], i, pos);
      }
      AdvanceAdds(Pos(rd), |unread|, done);
      WriteExtends(s, fs.St(), ino, Pos(rd), Pos(wr), unread, data[..done]);
      unread := unread + data[..done];
      wr := off;
    }

    /** One turn of a `read` call. At the end of the data, too, a request for 32768 bytes
        or more makes a copy, which runs over the end of a buffer. */
    method Read(count: nat) returns (r: Outcome, data: seq<Byte>)
      requires Valid() && Ready() && count < 65536
      modifies this`rd, this`got, this`unread, fs, fs.pool, fs.pool.cache
      ensures Valid() && Ready()
      ensures old(unread) == data + unread && got == old(got) + data
      ensures |data| == if r == Moved then Min(count, |old(unread)|) else 0
      ensures r ==
              if old(unread) == [] && refs != 1 then Sleeps
              else if count >= 32768 then Overran
              else if old(unread) == [] then Closed
              else Moved
      ensures fs.Room(ino) == old(fs.Room(ino))
      ensures FsShape(old(fs.St())) && SameBytes(old(fs.St()), fs.St()) && fs.error == old(fs.error)
      ensures |fs.inodes| == |old(fs.inodes)| && SizeSet(old(fs.inodes), fs.inodes, ino, fs.inodes[ino].size)
    {
      hide Took, fs.Room, At, fs.DevOk, fs.FreeOk, FsShape, Partition, ByteAt, Names, Min16, ReadFrom, SameBytes,
           Advance, Holes;
      ghost var s := fs.St();
      fs.SameRefl(s);
      var psize := Pos(fs.inodes[ino].size);
      if psize == 0 && refs != 1 {
        return Sleeps, [];
      }
      Min16Of(count, psize);
      var off, overrun;
      off, data, overrun := ReadLoop(fs, ino, rd, Min16(count, psize), true);
      if overrun {
        return Overran, [];
      }
      r := if psize == 0 then Closed else Moved;
      ReadAdvances(s, fs.St(), ino, Pos(rd), unread, |data|, data);
      AdvanceAdds(Pos(rd), |data|, |unread| - |data|);
      got := got + data;
      unread := unread[|data|..];
      rd := off;
    }

    lemma Min16Of(a: nat, b: nat)
      requires a < 65536 && b <= PIPE_MAX
      ensures Min16(a, b) == if a < 32768 then Min(a, b) else a
    {
    }

    /** An end is closed (`i_deref` while the other end is open). */
    method Close()
      requires Valid() && refs == 2
      modifies this`refs
      ensures Valid() && refs == 1
    {
      refs := 1;
    }
  }

  // Whole runs.

  datatype Step = Put(data: seq<Byte>) | Take(count: nat) | CloseEnd

  /** Byte counts are 16-bit numbers. */
  predicate StepOk(step: Step) {
    match step
    case Put(data) => |data| < 65536
    case Take(count) => count < 65536
    case CloseEnd => true
  }

  /** What a step came to, and the bytes it stored or delivered. */
  datatype Reply = Reply(how: Outcome, data: seq<Byte>)

  /** The abstract pipe: what was delivered, what was stored behind it, and the open ends. */
  datatype State = State(got: seq<Byte>, unread: seq<Byte>, refs: nat)

  /** The replies that a step can get. Only how much of accepted data is stored is open. */
  predicate Answers(x: State, step: Step, reply: Reply) {
    match step
    case Put(data) =>
      && reply.data <= data && (reply.how != Moved ==> reply.data == [])
      && reply.how == if |data| <= PIPE_MAX - |x.unread| then Moved else if x.refs == 1 then Closed else Sleeps
    case Take(count) =>
      reply ==
        if x.unread == [] && x.refs != 1 then Reply(Sleeps, [])
        else if count >= 32768 then Reply(Overran, [])
        else if x.unread == [] then Reply(Closed, [])
        else Reply(Moved, x.unread[..Min(count, |x.unread|)])
    case CloseEnd => reply == Reply(Moved, [])
  }

  function Next(x: State, step: Step, reply: Reply): State {
    match step
    case Put(_) => x.(unread := x.unread + reply.data)
    case Take(_) =>
      if |reply.data| <= |x.unread| then x.(got := x.got + reply.data, unread := x.unread[|reply.data|..]) else x
    case CloseEnd => x.(refs := if x.refs == 2 then 1 else x.refs)
  }

  /** The states that a list of steps goes through. */
  ghost predicate Explained(xs: seq<State>, steps: seq<Step>, replies: seq<Reply>) {
    && |replies| == |steps| && |xs| == |steps| + 1
    && forall i :: 0 <= i < |steps| ==>
         Answers(xs[i], steps[i], replies[i]) && xs[i + 1] == Next(xs[i], steps[i], replies[i])
  }

  /** All that was stored, in order. */
  function StoredBy(steps: seq<Step>, replies: seq<Reply>): seq<Byte>
    requires |replies| == |steps|
  {
    if steps == [] then []
    else
      var n := |steps| - 1;
      StoredBy(steps[..n], replies[..n]) + if steps[n].Put? then replies[n].data else []
  }

  /** What the writer has stored is at every moment what the reader has received, and at
      most 8192 bytes more. */
  lemma {:induction false} PipeFifo(xs: seq<State>, steps: seq<Step>, replies: seq<Reply>)
    requires Explained(xs, steps, replies) && |xs[0].unread| <= PIPE_MAX
    ensures |xs[|steps|].unread| <= PIPE_MAX
    ensures xs[|steps|].got + xs[|steps|].unread == xs[0].got + xs[0].unread + StoredBy(steps, replies)
  {
    hide Answers, Next;
    if steps != [] {
      var n := |steps| - 1;
      PipeFifo(xs[..n + 1], steps[..n], replies[..n]);
      NextFifo(xs[n], steps[n], replies[n]);
    }
  }

  lemma NextFifo(x: State, step: Step, reply: Reply)
    requires Answers(x, step, reply) && |x.unread| <= PIPE_MAX
    ensures var y := Next(x, step, reply);
            |y.unread| <= PIPE_MAX && y.got + y.unread == x.got + x.unread + if step.Put? then reply.data else []
  {
  }

  lemma ExplainOne(xs: seq<State>, steps: seq<Step>, replies: seq<Reply>, step: Step, reply: Reply, x: State)
    requires Explained(xs, steps, replies) && Answers(xs[|steps|], step, reply) && x == Next(xs[|steps|], step, reply)
    ensures Explained(xs + [x], steps + [step], replies + [reply])
  {
    hide Answers, Next;
  }

  /** One atomic step of either end. */
  method Perform(p: Pipe, step: Step) returns (how: Outcome, data: seq<Byte>, ghost reply: Reply)
    requires p.Valid() && p.Ready()
    requires StepOk(step)
    modifies p, p.fs, p.fs.pool, p.fs.pool.cache
    ensures p.Valid() && p.Ready() && how == reply.how && p.got == old(p.got) + data
    ensures Answers(old(p.Abs()), step, reply) && p.Abs() == Next(old(p.Abs()), step, reply)
    ensures old(p.fs.Room(p.ino)) ==> p.fs.Room(p.ino) && (step.Put? && how == Moved ==> reply.data == step.data)
    ensures step.Put? && how == Moved && reply.data != step.data ==> p.fs.stack == [] && p.fs.error == ENOSPC
  {
    hide PipeHolds, p.fs.DevOk, p.fs.FreeOk, FsShape, Partition, SameByte, SameBytes, Holes;
    data := [];
    match step
    case Put(d) =>
      ghost var done;
      how, done := p.Write(d);
      reply := Reply(how, d[..done]);
      assert done == |d| ==> d[..done] == d;
    case Take(count) =>
      how, data := p.Read(count);
      reply := Reply(how, data);
    case CloseEnd =>
      if p.refs == 2 { p.Close(); }
      how, reply := Moved, Reply(Moved, []);
  }

  /** Any interleaving of the two ends, up to a copy that runs over the end of a buffer:
      each step gets its reply and does to the pipe what it does to the abstract one.
      When there is room for the blocks of the ring, no byte of accepted data is lost. */
  method Run(p: Pipe, steps: seq<Step>) returns (received: seq<Byte>, ghost xs: seq<State>, ghost replies: seq<Reply>)
    requires p.Valid() && p.Ready()
    requires forall i :: 0 <= i < |steps| ==> StepOk(steps[i])
    modifies p, p.fs, p.fs.pool, p.fs.pool.cache
    ensures p.Valid() && p.Ready() && |replies| <= |steps| && Explained(xs, steps[..|replies|], replies)
    ensures xs[0] == old(p.Abs()) && p.Abs() == xs[|replies|] && p.got == old(p.got) + received
    ensures |replies| < |steps| ==> replies != [] && replies[|replies| - 1].how == Overran
    ensures |p.unread| <= PIPE_MAX
    ensures p.got + p.unread == old(p.got + p.unread) + StoredBy(steps[..|replies|], replies)
    ensures old(p.fs.Room(p.ino)) ==> forall i :: 0 <= i < |replies| ==>
      (steps[i].Put? && replies[i].how == Moved ==> replies[i].data == steps[i].data)
  {
    hide PipeHolds, p.fs.DevOk, p.fs.FreeOk, FsShape, Partition, SameByte, SameBytes, Holes, p.Valid, p.Ready,
         Answers, Next, Explained;
    received, xs, replies := [], [p.Abs()], [];
    ghost var room := p.fs.Room(p.ino);
    Unexplained(p.Abs());
    p.Backlog();
    for i := 0 to |steps|
      invariant p.Valid() && p.Ready() && |replies| == i && |xs| == i + 1 && Explained(xs, steps[..i], replies)
      invariant xs[0] == old(p.Abs()) && p.Abs() == xs[i] && p.got == old(p.got) + received
      invariant room ==> p.fs.Room(p.ino)
      invariant room ==> forall k :: 0 <= k < i ==>
        (steps[k].Put? && replies[k].how == Moved ==> replies[k].data == steps[k].data)
    {
      var how, data, reply := Perform(p, steps[i]);
      ExplainOne(xs, steps[..i], replies, steps[i], reply, p.Abs());
      assert steps[..i + 1] == steps[..i] + [steps[i]];
      received, xs, replies := received + data, xs + [p.Abs()], replies + [reply];
      if how == Overran { break; }
    }
    PipeFifo(xs, steps[..|replies|], replies);
  }

  lemma Unexplained(x: State)
    ensures Explained([x], [], [])
  {
  }
}
