/** The 1016-slot direct-mapped write-back cache between the buffer pool and the
    hard disk (CACHE.C), the block-to-sector arithmetic of the disk driver (DEVWD.C)
    and the incremental background flusher. */
module WriteCaches {

  const MAX_CACHE := 1016

  /** A block of one of the three disk partitions; dev is the minor device number. */
  datatype BlockId = BlockId(dev: int, blk: int)

  predicate ValidId(id: BlockId) {
    0 <= id.dev < 3 && 0 <= id.blk < 65536
  }

  /** The disk's contents as its users see it: one block for every valid name. */
  type View<T> = imap<BlockId, T>

  ghost predicate IsView<T>(v: View<T>) {
    forall id :: id in v <==> ValidId(id)
  }

  /** Hard-disk shape and partition offsets, in tracks (IDECONF.C). */
  datatype Geometry = Geometry(heads: nat, sectors: nat, trackOffset: nat, wd1: nat, wd2: nat) {
    function SecHead(): nat { heads * sectors }

    /** No partition of 65536 blocks reaches into the next one. */
    predicate Disjoint() {
      && SecHead() > 0
      && 65535 / SecHead() < wd1
      && wd1 + 65535 / SecHead() < wd2
    }
  }

  const COMPACT_FLASH := Geometry(1, 256, 512, 256, 2 * 256)
  const ST_3243A := Geometry(12, 34, 400, 161, 2 * 161)

  /** Both shipped partition tables leave the three partitions disjoint. */
  lemma ShippedGeometriesDisjoint()
    ensures COMPACT_FLASH.Disjoint() && ST_3243A.Disjoint()
  {
    assert ST_3243A.SecHead() == 408 && 65535 / 408 == 160;
    assert COMPACT_FLASH.SecHead() == 256 && 65535 / 256 == 255;
  }

  datatype Sector = Sector(track: int, sector: int)

  function PartitionOffset(g: Geometry, dev: int): int {
    if dev == 2 then g.wd2 else if dev == 1 then g.wd1 else 0
  }

  /** The sector that holds a block. */
  function Address(g: Geometry, id: BlockId): Sector
    requires g.SecHead() > 0
  {
    Sector(id.blk / g.SecHead() + g.trackOffset + PartitionOffset(g, id.dev), id.blk % g.SecHead())
  }

  lemma MulMonotone(x: int, y: int, d: int)
    requires x <= y && d > 0
    ensures x * d <= y * d
  {
  }

  lemma DivBounds(a: int, b: int, d: int)
    requires 0 <= a <= b && d > 0
    ensures 0 <= a / d <= b / d && a == (a / d) * d + a % d
  {
    if a / d > b / d {
      var q := b / d;
      MulMonotone(q + 1, a / d, d);
      assert false;
    }
  }

  /** Different blocks live in different sectors. */
  lemma AddressInjective(g: Geometry, a: BlockId, b: BlockId)
    requires g.Disjoint() && ValidId(a) && ValidId(b) && Address(g, a) == Address(g, b)
    ensures a == b
  {
    DivBounds(a.blk, 65535, g.SecHead());
    DivBounds(b.blk, 65535, g.SecHead());
  }

  /** Two blocks do not share a sector. */
  ghost predicate Distinct(at: imap<BlockId, Sector>, a: BlockId, b: BlockId) {
    ValidId(a) && ValidId(b) && a in at && b in at && at[a] == at[b] ==> a == b
  }

  /** Where each block lives: a table of Address, kept apart from its arithmetic. */
  ghost predicate IsAddressMap(g: Geometry, at: imap<BlockId, Sector>) {
    && g.Disjoint()
    && (forall id :: ValidId(id) ==> id in at)
    && (forall id {:trigger Address(g, id)} :: ValidId(id) ==> at[id] == Address(g, id))
    && (forall a, b {:trigger Distinct(at, a, b)} :: Distinct(at, a, b))
  }

  /** The hash, in 16-bit arithmetic. */
  function Key(id: BlockId): (k: nat)
    ensures k < MAX_CACHE
  {
    ((100 * id.dev + id.blk) % 65536) % MAX_CACHE
  }

  /** A cache slot's tag; id.dev is -2 while the slot is empty. */
  datatype CaBuf = CaBuf(dirty: bool, id: BlockId)

  /** The content of a block: cached if its slot holds it, on disk otherwise. */
  ghost function Content<T>(at: imap<BlockId, Sector>, disk: imap<Sector, T>, slots: seq<CaBuf>, mem: seq<T>,
                         id: BlockId): T
    requires |slots| == |mem| == MAX_CACHE && id in at && at[id] in disk
  {
    if slots[Key(id)].id == id then mem[Key(id)] else disk[at[id]]
  }

  ghost predicate IsDisk<T>(disk: imap<Sector, T>) {
    forall s :: s in disk
  }

  ghost predicate SlotsOk(slots: seq<CaBuf>) {
    && |slots| == MAX_CACHE
    && (forall k :: 0 <= k < MAX_CACHE ==>
          if slots[k].id.dev == -2 then !slots[k].dirty
          else ValidId(slots[k].id) && Key(slots[k].id) == k)
  }

  /** Well-formed tables. */
  ghost predicate Shape<T>(at: imap<BlockId, Sector>, disk: imap<Sector, T>, slots: seq<CaBuf>, mem: seq<T>,
    view: View<T>) {
    && SlotsOk(slots) && |mem| == MAX_CACHE && IsDisk(disk) && IsView(view)
    && (forall id :: ValidId(id) ==> id in at)
  }

  /** Clean slots equal the disk, and view is what the two together hold. */
  ghost predicate Agree<T>(at: imap<BlockId, Sector>, disk: imap<Sector, T>, slots: seq<CaBuf>, mem: seq<T>,
    view: View<T>)
    requires Shape(at, disk, slots, mem, view)
  {
    && (forall k :: 0 <= k < MAX_CACHE && slots[k].id.dev != -2 && !slots[k].dirty ==> mem[k] == disk[at[slots[k].id]])
    && (forall id :: ValidId(id) ==> view[id] == Content(at, disk, slots, mem, id))
  }

  ghost predicate Coherent<T>(at: imap<BlockId, Sector>, disk: imap<Sector, T>, slots: seq<CaBuf>, mem: seq<T>,
                              view: View<T>)
  {
    && Shape(at, disk, slots, mem, view)
    && (forall a, b {:trigger Distinct(at, a, b)} :: Distinct(at, a, b))
    && Agree(at, disk, slots, mem, view)
  }

  /** Writing a slot back changes no block's content. */
  lemma WriteBackKeepsView<T>(at: imap<BlockId, Sector>, disk: imap<Sector, T>, slots: seq<CaBuf>, mem: seq<T>,
                           view: View<T>, key: nat)
    requires Coherent(at, disk, slots, mem, view) && key < MAX_CACHE && slots[key].dirty
    ensures Coherent(at, disk[at[slots[key].id] := mem[key]], slots[key := slots[key].(dirty := false)], mem, view)
  {
    var id := slots[key].id;
    var disk', slots' := disk[at[id] := mem[key]], slots[key := slots[key].(dirty := false)];
    forall i | ValidId(i) ensures view[i] == Content(at, disk', slots', mem, i) {
      assert slots'[Key(i)].id == slots[Key(i)].id && Distinct(at, i, id);
    }
    forall k | 0 <= k < MAX_CACHE && slots'[k].id.dev != -2 && !slots'[k].dirty
      ensures mem[k] == disk'[at[slots'[k].id]]
    {
      if k != key { assert Distinct(at, slots[k].id, id); }
    }
  }

  /** Retagging a clean slot and filling it sets the content of one block. */
  lemma FillSetsView<T>(at: imap<BlockId, Sector>, disk: imap<Sector, T>, slots: seq<CaBuf>, mem: seq<T>,
                     view: View<T>, id: BlockId, buf: T, dirty: bool)
    requires Coherent(at, disk, slots, mem, view) && ValidId(id)
    requires slots[Key(id)].id == id || !slots[Key(id)].dirty
    requires !dirty ==> slots[Key(id)].id != id && buf == view[id]
    ensures Coherent(at, disk, slots[Key(id) := CaBuf(dirty, id)], mem[Key(id) := buf], view[id := buf])
  {
    var key := Key(id);
    var slots', mem', view' := slots[key := CaBuf(dirty, id)], mem[key := buf], view[id := buf];
    assert slots'[key].id == id;
    forall i | ValidId(i) ensures view'[i] == Content(at, disk, slots', mem', i) {
      if i != id && Key(i) == key && slots[key].id == i {
        assert mem[key] == disk[at[i]];
      }
    }
  }

  /** How many slots are dirty from k on. */
  function DirtyCount(slots: seq<CaBuf>, k: nat): (n: nat)
    ensures n <= if k < |slots| then |slots| - k else 0
    decreases |slots| - k
  {
    if k >= |slots| then 0 else DirtyCount(slots, k + 1) + if slots[k].dirty then 1 else 0
  }

  lemma {:induction false} CountSet(slots: seq<CaBuf>, key: nat, b: CaBuf, k: nat)
    requires key < |slots|
    ensures DirtyCount(slots[key := b], k) + (if k <= key && slots[key].dirty then 1 else 0) ==
            DirtyCount(slots, k) + (if k <= key && b.dirty then 1 else 0)
    decreases |slots| - k
  {
    if k < |slots| { CountSet(slots, key, b, k + 1); }
  }

  ghost function DirtyIds(slots: seq<CaBuf>): (ids: set<BlockId>)
    ensures forall id :: id in ids <==> exists k :: 0 <= k < |slots| && slots[k].dirty && slots[k].id == id
  {
    set k | 0 <= k < |slots| && slots[k].dirty :: slots[k].id
  }

  /** Every block written to the disk, oldest first. */
  type WriteLog = seq<BlockId>

  ghost predicate DirtySlot(slots: seq<CaBuf>, id: BlockId)
    requires |slots| == MAX_CACHE
  {
    slots[Key(id)].id == id && slots[Key(id)].dirty
  }

  ghost predicate Settled(slots: seq<CaBuf>, log: WriteLog, from: nat, ids: set<BlockId>, cursor: nat)
    requires |slots| == MAX_CACHE && from <= |log|
  {
    forall id :: id in ids ==> id in log[from..] || (DirtySlot(slots, id) && cursor <= Key(id))
  }

  /** What an unfinished sweep still owes: each block of ids has been written since
      the log stood at from, or is still dirty at or past the cursor. */
  ghost predicate SweepOwes(slots: seq<CaBuf>, log: WriteLog, from: nat, ids: set<BlockId>, cursor: nat)
    requires |slots| == MAX_CACHE
  {
    && from <= |log|
    && Settled(slots, log, from, ids, cursor)
  }

  /** Writing a slot out settles its debt. */
  lemma SweepKept(slots: seq<CaBuf>, log: WriteLog, from: nat, ids: set<BlockId>, cursor: nat, key: nat)
    requires |slots| == MAX_CACHE && key < MAX_CACHE && SweepOwes(slots, log, from, ids, cursor)
    ensures SweepOwes(slots[key := slots[key].(dirty := false)], log + [slots[key].id], from, ids, cursor)
  {
    var log' := log + [slots[key].id];
    assert log'[from..] == log[from..] + [slots[key].id];
    assert log'[|log'| - 1] == slots[key].id;
  }

  /** Filling a slot that is clean, or holds the same block, loses no debt. */
  lemma FillKeepsDirty(slots: seq<CaBuf>, log: WriteLog, from: nat, ids: set<BlockId>, cursor: nat, id: BlockId,
    dirty: bool)
    requires |slots| == MAX_CACHE && (slots[Key(id)].id == id || !slots[Key(id)].dirty)
    requires !dirty ==> slots[Key(id)].id != id
    ensures SweepOwes(slots, log, from, ids, cursor) ==>
              SweepOwes(slots[Key(id) := CaBuf(dirty, id)], log, from, ids, cursor)
  {
  }

  /** A clean slot at the cursor can be passed. */
  lemma SweepAdvances(slots: seq<CaBuf>, log: WriteLog, from: nat, ids: set<BlockId>, cursor: nat)
    requires |slots| == MAX_CACHE && cursor < MAX_CACHE && !slots[cursor].dirty
    requires SweepOwes(slots, log, from, ids, cursor)
    ensures SweepOwes(slots, log, from, ids, cursor + 1)
  {
  }

  lemma MissIsOnDisk<T>(at: imap<BlockId, Sector>, disk: imap<Sector, T>, slots: seq<CaBuf>, mem: seq<T>,
                        view: View<T>, id: BlockId)
    requires Coherent(at, disk, slots, mem, view) && ValidId(id) && slots[Key(id)].id != id
    ensures disk[at[id]] == view[id]
  {
  }

  /** The disk alone holds every block's content exactly when every dirty slot happens to
      equal its sector; so in particular when no slot is dirty. */
  lemma DiskIsCurrent<T>(at: imap<BlockId, Sector>, disk: imap<Sector, T>, slots: seq<CaBuf>, mem: seq<T>,
                         view: View<T>)
    requires Coherent(at, disk, slots, mem, view)
    ensures (forall id :: ValidId(id) ==> disk[at[id]] == view[id]) <==>
            (forall k :: 0 <= k < MAX_CACHE && slots[k].dirty ==> mem[k] == disk[at[slots[k].id]])
  {
    if forall k :: 0 <= k < MAX_CACHE && slots[k].dirty ==> mem[k] == disk[at[slots[k].id]] {
      forall id | ValidId(id) ensures disk[at[id]] == view[id] {
        assert slots[Key(id)].id == id ==> mem[Key(id)] == disk[at[id]];
      }
    }
    if forall id :: ValidId(id) ==> disk[at[id]] == view[id] {
      forall k | 0 <= k < MAX_CACHE && slots[k].dirty ensures mem[k] == disk[at[slots[k].id]] {
        assert Key(slots[k].id) == k;
      }
    }
  }

  lemma SweepDone(slots: seq<CaBuf>, log: WriteLog, from: nat, ids: set<BlockId>)
    requires |slots| == MAX_CACHE && SweepOwes(slots, log, from, ids, MAX_CACHE)
    ensures forall id :: id in ids ==> id in log[from..]
  {
  }

  datatype SweepState = SweepState(inCasync: int, cursor: nat, from: nat, ids: set<BlockId>)

  class WriteCache<T> {
    const geo: Geometry
    ghost const at: imap<BlockId, Sector>  // the sector of each block
    var disk: imap<Sector, T>
    var slots: seq<CaBuf>    // cach_buf
    var mem: seq<T>      // the cache memory, by slot
    var wdRdwr: int          // 0 reading, 1 writing
    var wdTrk: int
    var wdSec: int
    var inCasync: int        // 0 idle, 1 sweep under way, 2 inside a flush routine
    var cursor: nat          // static index of int_ca_sync

    ghost var view: View<T>
    ghost var log: WriteLog
    // The sweep under way: the log's length and the dirty blocks at its start.
    ghost var sweepFrom: nat
    ghost var sweepIds: set<BlockId>

    /** How the background flusher stands. */
    ghost function Sweep(): SweepState
      reads this`inCasync, this`cursor, this`sweepFrom, this`sweepIds
    {
      SweepState(inCasync, cursor, sweepFrom, sweepIds)
    }

    ghost predicate Tables()
      reads this
    {
      IsAddressMap(geo, at) && Coherent(at, disk, slots, mem, view)
    }

    ghost predicate Valid()
      reads this
    {
      && Tables()
      && 0 <= inCasync <= 1
      && cursor <= MAX_CACHE
      && (inCasync == 0 ==> cursor == 0)
      && (inCasync == 1 ==> SweepOwes(slots, log, sweepFrom, sweepIds, cursor))
    }

    /** `init_cache`, with the flusher idle; the disk may hold anything. */
    constructor (geo: Geometry, disk: imap<Sector, T>, blank: T)
      requires geo.Disjoint() && IsDisk(disk)
      ensures Valid() && this.geo == geo && this.disk == disk && inCasync == 0
      ensures forall k :: 0 <= k < MAX_CACHE ==> !slots[k].dirty
      ensures forall id {:trigger Address(geo, id)} :: ValidId(id) ==> view[id] == disk[Address(geo, id)]
    {
      ghost var sector := imap id | ValidId(id) :: Address(geo, id);
      forall a, b ensures Distinct(sector, a, b) {
        if ValidId(a) && ValidId(b) && sector[a] == sector[b] { AddressInjective(geo, a, b); }
      }
      this.geo, this.disk, this.at := geo, disk, sector;
      slots := seq(MAX_CACHE, _ => CaBuf(false, BlockId(-2, 0)));
      mem := seq(MAX_CACHE, _ => blank);
      wdRdwr, wdTrk, wdSec := 0, 0, 0;
      inCasync, cursor := 0, 0;
      view := imap id | ValidId(id) :: disk[sector[id]];
      log, sweepFrom, sweepIds := [], 0, {};
    }

    /** The low-level transfer of one sector, in the direction of wdRdwr. */
    method WdIo(buf: T) returns (data: T)
      requires IsDisk(disk)
      modifies this`disk
      ensures wdRdwr == 1 ==> disk == old(disk)[Sector(wdTrk, wdSec) := buf] && data == buf
      ensures wdRdwr != 1 ==> disk == old(disk) && data == disk[Sector(wdTrk, wdSec)]
    {
      var s := Sector(wdTrk, wdSec);
      if wdRdwr == 1 {
        disk := disk[s := buf];
        data := buf;
      } else {
        data := disk[s];
      }
    }

    /** Aims the driver at the sector of a block. */
    method Locate(dev: int, blkno: int)
      requires IsAddressMap(geo, at) && ValidId(BlockId(dev, blkno))
      modifies this`wdTrk, this`wdSec
      ensures Sector(wdTrk, wdSec) == at[BlockId(dev, blkno)]
    {
      wdSec := blkno % geo.SecHead();
      wdTrk := blkno / geo.SecHead() + geo.trackOffset;
      if dev == 2 {
        wdTrk := wdTrk + geo.wd2;
      }
      if dev == 1 {
        wdTrk := wdTrk + geo.wd1;
      }
      assert Sector(wdTrk, wdSec) == Address(geo, BlockId(dev, blkno));
    }

    /** Writes one dirty slot to the disk and cleans it. No block's content changes. */
    method CacheWrite(key: nat)
      requires Tables() && key < MAX_CACHE && slots[key].dirty
      modifies this`disk, this`slots, this`log, this`wdRdwr, this`wdTrk, this`wdSec
      ensures Tables()
      ensures slots == old(slots)[key := old(slots)[key].(dirty := false)]
      ensures log == old(log) + [old(slots)[key].id]
      ensures wdRdwr == old(wdRdwr) && wdTrk == old(wdTrk) && wdSec == old(wdSec)
      ensures old(SweepOwes(slots, log, sweepFrom, sweepIds, cursor)) ==>
                SweepOwes(slots, log, sweepFrom, sweepIds, cursor)
    {
      hide Agree, Settled;
      WriteBackKeepsView(at, disk, slots, mem, view, key);
      if SweepOwes(slots, log, sweepFrom, sweepIds, cursor) {
        SweepKept(slots, log, sweepFrom, sweepIds, cursor, key);
      }
      var rdwr, trk, sec := wdRdwr, wdTrk, wdSec;
      var use := slots[key];
      Locate(use.id.dev, use.id.blk);
      wdRdwr := 1;
      var _ := WdIo(mem[key]);
      slots := slots[key := use.(dirty := false)];
      wdRdwr, wdTrk, wdSec := rdwr, trk, sec;
      log := log + [use.id];
    }

    /** `ca_read`: the cached copy, if there is one. */
    method CaRead(id: BlockId, buf: T) returns (hit: bool, data: T)
      requires Tables() && ValidId(id)
      ensures hit <==> slots[Key(id)].id == id
      ensures data == if hit then view[id] else buf
    {
      var key := Key(id);
      if slots[key].id.blk != id.blk || slots[key].id.dev != id.dev {
        return false, buf;
      }
      assert slots[key].id == id;
      return true, mem[key];
    }

    /** `ca_write`: puts buf into the cache as block id, dirty when the driver is
        writing and clean after a disk read, evicting whatever held the slot. */
    method CaWrite(id: BlockId, buf: T)
      requires Valid() && ValidId(id)
      requires wdRdwr == 0 ==> slots[Key(id)].id != id && buf == view[id]
      modifies this`disk, this`slots, this`mem, this`log, this`view, this`wdRdwr, this`wdTrk, this`wdSec
      ensures Valid()
      ensures view == old(view)[id := buf] && old(log) <= log && wdRdwr == old(wdRdwr)
      ensures slots == old(slots)[Key(id) := CaBuf(slots[Key(id)].dirty, id)]
      ensures slots[Key(id)].dirty == (wdRdwr != 0)
      ensures DirtyCount(slots, cursor) <= DirtyCount(old(slots), cursor) + if wdRdwr == 0 then 0 else 1
      ensures wdRdwr != 0 ==> DirtySlot(slots, id)
      ensures !old(slots)[Key(id)].dirty ==> disk == old(disk)
    {
      hide Agree, Settled, DirtyCount;
      var key := Key(id);
      CountSet(slots, key, CaBuf(false, slots[key].id), cursor);
      if slots[key].id != id && slots[key].dirty {
        CacheWrite(key);
      }
      FillSetsView(at, disk, slots, mem, view, id, buf, wdRdwr != 0);
      FillKeepsDirty(slots, log, sweepFrom, sweepIds, cursor, id, wdRdwr != 0);
      CountSet(slots, key, CaBuf(wdRdwr != 0 || slots[key].dirty, id), cursor);
      slots := slots[key := CaBuf(wdRdwr != 0 || slots[key].dirty, id)];
      mem := mem[key := buf];
      view := view[id := buf];
    }

    /** The disk driver for one buffered block: `wd_read` and `wd_write` through
        `setup` with rawflag 0. A read returns the block's content, a write sets it. */
    method Setup(rdwr: int, id: BlockId, buf: T) returns (data: T)
      requires Valid() && ValidId(id) && 0 <= rdwr <= 1
      modifies this`disk, this`slots, this`mem, this`log, this`view, this`wdRdwr, this`wdTrk, this`wdSec
      ensures Valid()
      ensures id in view && (rdwr == 0 ==> data == view[id] && view == old(view))
      ensures slots == old(slots)[Key(id) := CaBuf(slots[Key(id)].dirty, id)]
      ensures slots[Key(id)].dirty == (rdwr == 1 || (old(slots)[Key(id)].id == id && old(slots)[Key(id)].dirty))
      ensures rdwr == 1 ==> data == buf && view == old(view)[id := buf] && DirtySlot(slots, id)
      ensures old(log) <= log && DirtyCount(slots, cursor) <= DirtyCount(old(slots), cursor) + rdwr
      ensures !old(slots)[Key(id)].dirty ==> disk == old(disk)
    {
      hide Agree, Settled;
      wdRdwr := rdwr;
      Locate(id.dev, id.blk);
      if wdRdwr == 1 {
        CaWrite(id, buf);
        data := buf;
      } else {
        var hit;
        hit, data := CaRead(id, buf);
        if !hit {
          MissIsOnDisk(at, disk, slots, mem, view, id);
          data := WdIo(buf);
          CaWrite(id, data);
        }
        assert view == old(view);
      }
    }

    /** The clock event that starts a background sweep when none is under way. */
    method StartSweep()
      requires Valid()
      modifies this`inCasync, this`sweepFrom, this`sweepIds
      ensures Valid() && inCasync == 1
      ensures old(inCasync) == 0 ==>
                && sweepFrom == |log| && sweepIds == DirtyIds(slots)
                && forall id :: ValidId(id) ==> (DirtySlot(slots, id) <==> id in sweepIds)
      ensures old(inCasync) == 1 ==> sweepFrom == old(sweepFrom) && sweepIds == old(sweepIds)
    {
      hide Agree;
      if inCasync == 0 {
        inCasync := 1;
        sweepFrom := |log|;
        sweepIds := DirtyIds(slots);
      }
    }

    /** `ca_sync`: writes every dirty slot. Afterwards the disk alone holds every
        block's content. `_sync` calls it only while no sweep is under way. */
    method CaSync()
      requires Valid() && inCasync == 0
      modifies this`disk, this`slots, this`log, this`inCasync, this`wdRdwr, this`wdTrk, this`wdSec
      ensures Valid() && inCasync == 0 && old(log) <= log
      ensures forall k :: 0 <= k < MAX_CACHE ==> !slots[k].dirty
      ensures forall id :: ValidId(id) ==> disk[at[id]] == view[id]
    {
      hide Agree;
      inCasync := 2;
      var i := 0;
      while i < MAX_CACHE
        invariant 0 <= i <= MAX_CACHE && Tables() && old(log) <= log
        invariant forall k :: 0 <= k < i ==> !slots[k].dirty
      {
        if slots[i].dirty {
          CacheWrite(i);
        }
        i := i + 1;
      }
      inCasync := 0;
      DiskIsCurrent(at, disk, slots, mem, view);
    }

    /** `int_ca_sync`: one step of the sweep. It writes at most one dirty slot; when
        it finds none the sweep is over, and every block that was dirty when the
        sweep started has been written since. */
    method IntCaSync()
      requires Valid() && inCasync == 1
      modifies this`disk, this`slots, this`log, this`inCasync, this`cursor, this`wdRdwr, this`wdTrk, this`wdSec
      ensures Valid()
      ensures old(log) <= log && |log| == |old(log)| + inCasync
      ensures inCasync == 1 ==> DirtyCount(slots, cursor) < DirtyCount(old(slots), old(cursor))
      ensures inCasync == 0 ==> forall id :: id in sweepIds ==> id in log[sweepFrom..]
    {
      hide Agree, Settled;
      inCasync := 2;
      while cursor < MAX_CACHE
        invariant Tables() && cursor <= MAX_CACHE && log == old(log)
        invariant SweepOwes(slots, log, sweepFrom, sweepIds, cursor)
        invariant slots == old(slots) && DirtyCount(slots, cursor) == DirtyCount(slots, old(cursor))
        decreases MAX_CACHE - cursor
      {
        if slots[cursor].dirty {
          CountSet(slots, cursor, slots[cursor].(dirty := false), cursor);
          CacheWrite(cursor);
          inCasync := 1;
          return;
        }
        SweepAdvances(slots, log, sweepFrom, sweepIds, cursor);
        cursor := cursor + 1;
      }
      SweepDone(slots, log, sweepFrom, sweepIds);
      inCasync := 0;
      cursor := 0;
    }
  }

  // Whole runs.

  /** What happens to the cache next: a block read or written through the driver, `_sync`
      in a system call, the clock starting the flusher, and a step of it. */
  datatype Event<T> = Read(id: BlockId) | Write(id: BlockId, b: T) | SyncCall | Start | Step

  predicate EventOk<T>(e: Event<T>) {
    (e.Read? || e.Write?) ==> ValidId(e.id)
  }

  /** The contents of all blocks after some events. */
  ghost function ViewAfter<T>(v: View<T>, es: seq<Event<T>>): View<T> {
    if es == [] then v
    else
      var e := es[|es| - 1];
      var w := ViewAfter(v, es[..|es| - 1]);
      if e.Write? then w[e.id := e.b] else w
  }

  function Writes<T>(es: seq<Event<T>>): nat {
    if es == [] then 0 else Writes(es[..|es| - 1]) + if es[|es| - 1].Write? then 1 else 0
  }

  function Steps<T>(es: seq<Event<T>>): nat {
    if es == [] then 0 else Steps(es[..|es| - 1]) + if es[|es| - 1].Step? then 1 else 0
  }

  /** A sweep that started when the log and the slots were these: its blocks have been
      written since, or it is under way, owes them, and has taken no more steps than there
      were dirty slots at its start and writes since. */
  ghost predicate Flushing<T>(c: WriteCache<T>, log: WriteLog, slots: seq<CaBuf>, es: seq<Event<T>>)
    reads c
  {
    || WrittenSince(c.log, log, slots)
    || (&& c.inCasync == 1 && c.sweepFrom == |log| && c.sweepIds == DirtyIds(slots)
        && DirtyCount(c.slots, c.cursor) + Steps(es) <= DirtyCount(slots, 0) + Writes(es))
  }

  /** What was dirty in these slots was written after the log was this. */
  ghost predicate WrittenSince(now: WriteLog, log: WriteLog, slots: seq<CaBuf>) {
    |log| <= |now| && forall id :: id in DirtyIds(slots) ==> id in now[|log|..]
  }

  /** One event; a sweep step without a sweep, and `_sync` during one, do nothing. */
  method Perform<T>(c: WriteCache<T>, e: Event<T>, blank: T) returns (data: T)
    requires c.Valid() && EventOk(e)
    modifies c
    ensures c.Valid() && old(c.log) <= c.log
    ensures if e.Write? then c.view == old(c.view)[e.id := e.b] else c.view == old(c.view)
    ensures e.Read? ==> e.id in c.view && data == c.view[e.id]
    ensures e.Start? && old(c.inCasync) == 0 ==>
              && c.inCasync == 1 && c.log == old(c.log)
              && c.sweepFrom == |c.log| && c.sweepIds == DirtyIds(old(c.slots))
              && DirtyCount(c.slots, c.cursor) == DirtyCount(old(c.slots), 0)
    ensures old(c.inCasync) == 1 && c.inCasync == 1 ==>
              && c.sweepFrom == old(c.sweepFrom) && c.sweepIds == old(c.sweepIds)
              && DirtyCount(c.slots, c.cursor) + (if e.Step? then 1 else 0) <=
                 DirtyCount(old(c.slots), old(c.cursor)) + (if e.Write? then 1 else 0)
    ensures old(c.inCasync) == 1 && c.inCasync != 1 ==>
              && e.Step? && |c.log| >= old(c.sweepFrom)
              && forall id :: id in old(c.sweepIds) ==> id in c.log[old(c.sweepFrom)..]
  {
    hide Agree, Settled, Coherent, IsAddressMap;
    data := blank;
    match e
    case Read(id) => data := c.Setup(0, id, blank);
    case Write(id, b) => data := c.Setup(1, id, b);
    case SyncCall => if c.inCasync != 1 { c.CaSync(); }
    case Start => c.StartSweep();
    case Step =>
      if c.inCasync == 1 {
        c.IntCaSync();
        if c.inCasync != 1 { assert forall id :: id in c.sweepIds ==> id in c.log[c.sweepFrom..]; }
      }
  }

  lemma StillWritten(a: WriteLog, b: WriteLog, log: WriteLog, slots: seq<CaBuf>)
    requires WrittenSince(a, log, slots) && a <= b
    ensures WrittenSince(b, log, slots)
  {
    assert b[|log|..] == a[|log|..] + b[|a|..];
  }

  /** Any run of reads, writes, syncs and steps of the flusher: a read gives what was last
      written. If the run begins by starting a sweep, then whenever none is under way any
      more, and at the latest when there were more steps than dirty slots and writes, all
      blocks that were dirty at its start have been written to the disk. */
  method Run<T>(c: WriteCache<T>, es: seq<Event<T>>, blank: T) returns (data: seq<T>)
    requires c.Valid() && forall i :: 0 <= i < |es| ==> EventOk(es[i])
    modifies c
    ensures c.Valid() && |data| == |es| && c.view == ViewAfter(old(c.view), es)
    ensures forall i :: 0 <= i < |es| && es[i].Read? ==>
      var v := ViewAfter(old(c.view), es[..i]);
      es[i].id in v && data[i] == v[es[i].id]
    ensures es != [] && es[0].Start? && old(c.inCasync) == 0
            && (c.inCasync == 0 || Steps(es) > DirtyCount(old(c.slots), 0) + Writes(es)) ==>
              WrittenSince(c.log, old(c.log), old(c.slots))
  {
    hide c.Tables, DirtyCount, DirtyIds, WrittenSince, SweepOwes;
    data := [];
    ghost var log0, slots0, starts := c.log, c.slots, es != [] && es[0].Start? && c.inCasync == 0;
    for n := 0 to |es|
      invariant c.Valid() && |data| == n && c.view == ViewAfter(old(c.view), es[..n])
      invariant forall i :: 0 <= i < n && es[i].Read? ==>
        var v := ViewAfter(old(c.view), es[..i]);
        es[i].id in v && data[i] == v[es[i].id]
      invariant n == 0 ==> c.log == log0 && c.slots == slots0 && c.inCasync == old(c.inCasync)
      invariant starts && n > 0 ==> Flushing(c, log0, slots0, es[..n])
    {
      assert es[..n + 1][..n] == es[..n];
      assert Steps(es[..n + 1]) == Steps(es[..n]) + if es[n].Step? then 1 else 0;
      assert Writes(es[..n + 1]) == Writes(es[..n]) + if es[n].Write? then 1 else 0;
      ghost var log1 := c.log;
      var d := Perform(c, es[n], blank);
      if WrittenSince(log1, log0, slots0) { StillWritten(log1, c.log, log0, slots0); }
      WrittenIs(c.log, log0, slots0);
      data := data + [d];
    }
    assert es[..|es|] == es;
  }

  lemma WrittenIs(now: WriteLog, log: WriteLog, slots: seq<CaBuf>)
    ensures |log| <= |now| && (forall id :: id in DirtyIds(slots) ==> id in now[|log|..]) ==>
              WrittenSince(now, log, slots)
  {
  }
}
