/** File positions as the kernel keeps them (SCALL1.C): a 16-bit block number and an
    offset within the block, and the 16-bit arithmetic on them. */
module Offsets {
  import opened Basics
  import opened BlockTrees

  const MAX_POS := 65536 * 512

  /** A 16-bit pattern read as a signed number. */
  function Signed16(x: int): int {
    if x % 65536 < 32768 then x % 65536 else x % 65536 - 65536
  }

  /** `min(a, b)` of two unsigned 16-bit values: it compares them as signed ones. */
  function Min16(a: int, b: int): int {
    if Signed16(a) < Signed16(b) then a % 65536 else b % 65536
  }

  /** It is the smaller one exactly when both values are below 32768 or neither is. */
  lemma Min16Exact(a: int, b: int)
    requires 0 <= a < 65536 && 0 <= b < 65536
    ensures Min16(a, b) == Min(a, b) <==> (a < 32768 <==> b < 32768)
  {
  }

  predicate Normal(o: Off) {
    0 <= o.blkno < 65536 && 0 <= o.offset < 512
  }

  function Pos(o: Off): int {
    512 * o.blkno + o.offset
  }

  /** `addoff`. */
  function AddOff(o: Off, amount: int): Off {
    if amount >= 0 then
      var offset := o.offset + amount % 512;
      var carry := if offset >= 512 then 1 else 0;
      Off((o.blkno + carry + amount / 512) % 65536, offset - 512 * carry)
    else
      var offset := o.offset - (-amount) % 512;
      var borrow := if offset < 0 then 1 else 0;
      Off((o.blkno - borrow - (-amount) / 512) % 65536, offset + 512 * borrow)
  }

  lemma ModUnique(p: int, k: int, r: int)
    requires p == MAX_POS * k + r && 0 <= r < MAX_POS
    ensures p % MAX_POS == r
  {
  }

  lemma ModBlocks(q: int, r: int)
    requires 0 <= r < 512
    ensures (512 * q + r) % MAX_POS == 512 * (q % 65536) + r
  {
    ModUnique(512 * q + r, q / 65536, 512 * (q % 65536) + r);
  }

  /** The block number of a sum before it is cut to 16 bits. */
  function BlkSum(o: Off, amount: int): int {
    if amount >= 0 then o.blkno + (if o.offset + amount % 512 >= 512 then 1 else 0) + amount / 512
    else o.blkno - (if o.offset - (-amount) % 512 < 0 then 1 else 0) - (-amount) / 512
  }

  lemma SumUp(o: Off, amount: nat)
    requires Normal(o)
    ensures var r := AddOff(o, amount);
            && r.blkno == BlkSum(o, amount) % 65536 && 0 <= r.offset < 512
            && Pos(o) + amount == 512 * BlkSum(o, amount) + r.offset
  {
    assert amount == 512 * (amount / 512) + amount % 512;
  }

  lemma SumDown(o: Off, amount: int)
    requires Normal(o) && amount > 0
    ensures var r := AddOff(o, -amount);
            && r.blkno == BlkSum(o, -amount) % 65536 && 0 <= r.offset < 512
            && Pos(o) - amount == 512 * BlkSum(o, -amount) + r.offset
  {
    assert amount == 512 * (amount / 512) + amount % 512;
  }

  /** Adding to a position is exact, up to the wrap of the 16-bit block number. */
  lemma AddOffMoves(o: Off, amount: int)
    requires Normal(o) && -32768 < amount < 32768
    ensures Normal(AddOff(o, amount))
    ensures Pos(AddOff(o, amount)) == (Pos(o) + amount) % MAX_POS
  {
    hide AddOff, BlkSum;
    if amount >= 0 { SumUp(o, amount); } else { SumDown(o, -amount); assert -(-amount) == amount; }
    ModBlocks(BlkSum(o, amount), AddOff(o, amount).offset);
  }

  /** Without a wrap, and with the wrap at the very end. */
  lemma AddOffExact(o: Off, amount: int)
    requires Normal(o) && -32768 < amount < 32768 && 0 <= Pos(o) + amount <= MAX_POS
    ensures Normal(AddOff(o, amount))
    ensures Pos(AddOff(o, amount)) == if Pos(o) + amount == MAX_POS then 0 else Pos(o) + amount
  {
    hide AddOff;
    AddOffMoves(o, amount);
    var sum := Pos(o) + amount;
    ModUnique(sum, if sum == MAX_POS then 1 else 0, if sum == MAX_POS then 0 else sum);
  }

  /** How many bytes `readi` decides to read from a regular file. */
  function ReadCount(size: Off, off: Off, count: int): int {
    var left := (size.blkno - off.blkno) % 65536;
    if left >= 64 then count
    else Min16(count, 512 * left + (size.offset - off.offset))
  }

  /** Blocks left, in 16-bit arithmetic. */
  function Left(size: Off, off: Off): int
  {
    if size.blkno >= off.blkno then size.blkno - off.blkno else size.blkno - off.blkno + 65536
  }

  /** The same number without 16-bit arithmetic. */
  lemma ReadCountIs(size: Off, off: Off, count: int)
    requires Normal(size) && Normal(off) && 0 <= count < 65536
    ensures var x := 512 * Left(size, off) + (size.offset - off.offset);
            ReadCount(size, off, count) ==
              if Left(size, off) >= 64 then count
              else if x < 0 then (if count >= 32768 && count - 65536 < x then count else 65536 + x)
              else if count >= 32768 then count else Min(count, x)
  {
    assert (size.blkno - off.blkno) % 65536 == Left(size, off);
    var x := 512 * Left(size, off) + (size.offset - off.offset);
    if Left(size, off) < 64 { Min16Is(count, x); }
  }

  lemma Min16Is(a: int, x: int)
    requires 0 <= a < 65536 && -512 < x < 32768
    ensures Min16(a, x) == if x < 0 then (if a >= 32768 && a - 65536 < x then a else 65536 + x)
                           else if a >= 32768 then a else Min(a, x)
  {
    assert x % 65536 == if x < 0 then x + 65536 else x;
    assert a % 65536 == a;
  }

  /** At or before the end of a file, `readi` reads what is there, no more than asked
      for, exactly when the request is not too big: below 32768 when fewer than 64
      blocks remain, and no more than remains when at least 64 do. */
  lemma ReadCountExact(size: Off, off: Off, count: int)
    requires Normal(size) && Normal(off) && Pos(off) <= Pos(size) && 0 <= count < 65536
    ensures ReadCount(size, off, count) == Min(count, Pos(size) - Pos(off)) <==>
            if size.blkno - off.blkno >= 64 then count <= Pos(size) - Pos(off) else count < 32768
  {
    hide ReadCount;
    ReadCountIs(size, off, count);
  }

  /** So 32257 bytes is the largest request that is read right at every position. */
  lemma ReadCountLimit(count: int)
    requires 0 <= count < 65536
    ensures (forall size: Off, off: Off :: Normal(size) && Normal(off) && Pos(off) <= Pos(size) ==>
               ReadCount(size, off, count) == Min(count, Pos(size) - Pos(off))) <==> count <= 32257
  {
    var size, off := Off(64, 0), Off(0, 511);
    assert Pos(size) - Pos(off) == 32257;
    ReadCountExact(size, off, count);
    if count <= 32257 {
      forall size: Off, off: Off | Normal(size) && Normal(off) && Pos(off) <= Pos(size)
        ensures ReadCount(size, off, count) == Min(count, Pos(size) - Pos(off))
      {
        ReadCountExact(size, off, count);
      }
    }
  }

  /** Past the end of a file `readi` does not report end of file: it goes on reading. */
  lemma ReadsPastTheEnd(size: Off, off: Off, count: int)
    requires Normal(size) && Normal(off) && 0 < count < 32768
    ensures ReadCount(size, off, count) == 0 <==> Pos(off) == Pos(size)
  {
    hide ReadCount;
    ReadCountIs(size, off, count);
  }

  /** The flags of `_seek` that it accepts. */
  datatype Whence = Set | Cur | End | SetBlk | CurBlk | EndBlk

  /** The position `_seek` starts from, before it brings the offset below 512. */
  function SeekStart(ptr: Off, size: Off, offset: int, flag: Whence): Off {
    match flag
    case Set => Off(0, offset)
    case Cur => Off(ptr.blkno, (ptr.offset + offset) % 65536)
    case End => Off(size.blkno, (size.offset + offset) % 65536)
    case SetBlk => Off(offset, ptr.offset)
    case CurBlk => Off((ptr.blkno + offset) % 65536, ptr.offset)
    case EndBlk => Off((size.blkno + offset) % 65536, ptr.offset)
  }

  lemma SeekStartRange(ptr: Off, size: Off, offset: int, flag: Whence)
    requires Normal(ptr) && Normal(size) && 0 <= offset < 65536
    ensures var o := SeekStart(ptr, size, offset, flag); 0 <= o.offset < 65536 && 0 <= o.blkno < 65536
  {
  }

  /** `_seek`: the new file position. */
  method Seek(ptr: Off, size: Off, offset: int, flag: Whence) returns (o: Off)
    requires Normal(ptr) && Normal(size) && 0 <= offset < 65536
    ensures Normal(o)
    ensures Pos(o) == Pos(SeekStart(ptr, size, offset, flag)) % MAX_POS
  {
    hide SeekStart;
    SeekStartRange(ptr, size, offset, flag);
    o := SeekStart(ptr, size, offset, flag);
    ghost var start := o;
    ghost var k := 0;
    while o.offset >= 512
      invariant 0 <= o.offset < 65536 && 0 <= o.blkno < 65536
      invariant Pos(start) == MAX_POS * k + Pos(o)
      decreases o.offset
    {
      if o.blkno == 65535 { k := k + 1; }
      o := Off(if o.blkno == 65535 then 0 else o.blkno + 1, o.offset - 512);
    }
    ModUnique(Pos(start), k, Pos(o));
  }

  /** The position that a caller asks for who moves by n bytes, or blocks. */
  function Asked(ptr: Off, size: Off, n: int, flag: Whence): int {
    match flag
    case Set => n
    case Cur => Pos(ptr) + n
    case End => Pos(size) + n
    case SetBlk => 512 * n + ptr.offset
    case CurBlk => 512 * (ptr.blkno + n) + ptr.offset
    case EndBlk => 512 * (size.blkno + n) + ptr.offset
  }

  /** The offset within a block that a byte-wise seek adds to. */
  function SeekBase(ptr: Off, size: Off, flag: Whence): int {
    match flag
    case Cur => ptr.offset
    case End => size.offset
    case _ => 0
  }

  /** Sums of two 16-bit numbers, the second one signed or not. */
  lemma Sum16(a: int, n: int)
    requires 0 <= a < 65536 && -32768 <= n < 65536
    ensures (a + n % 65536) % 65536 ==
            if a + n < 0 then a + n + 65536 else if a + n < 65536 then a + n else a + n - 65536
  {
    assert n % 65536 == if n < 0 then n + 65536 else n;
  }

  lemma WrapOnce(p: int)
    requires 0 <= p < 2 * MAX_POS
    ensures p % MAX_POS == if p < MAX_POS then p else p - MAX_POS
  {
    ModUnique(p, if p < MAX_POS then 0 else 1, if p < MAX_POS then p else p - MAX_POS);
  }

  lemma SeekBytes(ptr: Off, size: Off, n: int, flag: Whence)
    requires Normal(ptr) && Normal(size) && -32768 <= n < 65536 && flag in {Set, Cur, End}
    ensures Pos(SeekStart(ptr, size, n % 65536, flag)) % MAX_POS == Asked(ptr, size, n, flag) <==>
            0 <= Asked(ptr, size, n, flag) < MAX_POS && 0 <= SeekBase(ptr, size, flag) + n < 65536
  {
    var start := SeekStart(ptr, size, n % 65536, flag);
    var base := SeekBase(ptr, size, flag);
    Sum16(base, n);
    assert start.offset == (base + n % 65536) % 65536;
    WrapOnce(Pos(start));
  }

  lemma SeekBlocks(ptr: Off, size: Off, n: int, flag: Whence)
    requires Normal(ptr) && Normal(size) && -32768 <= n < 65536 && flag !in {Set, Cur, End}
    ensures Pos(SeekStart(ptr, size, n % 65536, flag)) % MAX_POS == Asked(ptr, size, n, flag) <==>
            0 <= Asked(ptr, size, n, flag) < MAX_POS
  {
    var start := SeekStart(ptr, size, n % 65536, flag);
    Sum16(if flag == SetBlk then 0 else if flag == CurBlk then ptr.blkno else size.blkno, n);
    WrapOnce(Pos(start));
  }

  /** `_seek` lands where the caller asked, whether the argument stands for an unsigned
      number or for a signed one, exactly when that position exists and the 16-bit sum
      of the offsets does not wrap; a byte-wise seek back out of its block never does. */
  lemma SeekExact(ptr: Off, size: Off, n: int, flag: Whence)
    requires Normal(ptr) && Normal(size) && -32768 <= n < 65536
    ensures Pos(SeekStart(ptr, size, n % 65536, flag)) % MAX_POS == Asked(ptr, size, n, flag) <==>
            && 0 <= Asked(ptr, size, n, flag) < MAX_POS
            && (flag in {Set, Cur, End} ==> 0 <= SeekBase(ptr, size, flag) + n < 65536)
  {
    if flag in {Set, Cur, End} {
      SeekBytes(ptr, size, n, flag);
    } else {
      SeekBlocks(ptr, size, n, flag);
    }
  }
}
