/** The 38-entry least-recently-used pool of block buffers (DEVIO.C). It sits over
    the write-back cache, and together they behave as one map from block names to
    contents: `view`. */
module BufferPools {
  import opened Basics
  import opened WriteCaches

  const NBUFS := 38

  /** A block buffer's name is a device number of the switch table; the three disk
      partitions are devices 0, 2 and 3, and drive the cache as minors 0, 1 and 2. */
  predicate IsDiskDev(dev: int) {
    dev == 0 || dev == 2 || dev == 3
  }

  predicate ValidBuf(id: BlockId) {
    IsDiskDev(id.dev) && 0 <= id.blk < 65536
  }

  function Minor(dev: int): int {
    if dev == 0 then 0 else dev - 1
  }

  function CacheId(id: BlockId): BlockId {
    BlockId(Minor(id.dev), id.blk)
  }

  /** A buffer header; id.dev is -1 while the buffer belongs to no device. */
  datatype Hdr = Hdr(id: BlockId, dirty: bool, busy: bool, time: int)

  /** What the holder of a busy buffer has: a scratch buffer, or a block that it may
      have edited since it was handed out. */
  datatype Hold = Tmp | Named(id: BlockId, edited: bool)

  type Holds = map<nat, Hold>

  /** The blocks whose buffers are held. */
  function Names(holds: Holds): set<BlockId> {
    set h | h in holds && holds[h].Named? :: holds[h].id
  }

  lemma NamesOfHold(holds: Holds, h: nat)
    requires h in holds
    ensures Names(holds) == Names(holds - {h}) + (if holds[h].Named? then {holds[h].id} else {})
  {
    var rest := holds - {h};
    forall id ensures id in Names(holds) <==> id in Names(rest) || (holds[h].Named? && id == holds[h].id) {
      if id in Names(holds) {
        var i :| i in holds && holds[i].Named? && holds[i].id == id;
        assert i == h || (i in rest && rest[i] == holds[i]);
      }
      if id in Names(rest) {
        var i :| i in rest && rest[i].Named? && rest[i].id == id;
        assert i in holds && holds[i] == rest[i];
      }
    }
  }

  lemma NamesTaken(holds: Holds, h: nat, hold: Hold)
    requires h !in holds
    ensures Names(holds[h := hold]) == Names(holds) + (if hold.Named? then {hold.id} else {})
  {
    assert holds[h := hold] - {h} == holds;
    NamesOfHold(holds[h := hold], h);
  }

  lemma NamesEdited(holds: Holds, h: nat)
    requires h in holds && holds[h].Named?
    ensures Names(holds[h := Named(holds[h].id, true)]) == Names(holds)
  {
    NamesOfHold(holds, h);
    NamesTaken(holds - {h}, h, Named(holds[h].id, true));
    assert (holds - {h})[h := Named(holds[h].id, true)] == holds[h := Named(holds[h].id, true)];
  }

  /** Age of a buffer on the wrapping 16-bit clock. */
  function Age(clock: int, time: int): int {
    (clock - time) % 65536
  }

  ghost predicate IsPoolView<T>(v: View<T>) {
    forall id :: id in v <==> ValidBuf(id)
  }

  predicate Edited(holds: Holds, i: nat) {
    i in holds && holds[i].Named? && holds[i].edited
  }

  /** Buffer i is not busy, and no buffer that is not busy is older. */
  ghost predicate IsOldest(hdr: seq<Hdr>, clock: int, i: nat) {
    && i < |hdr| && !hdr[i].busy
    && (forall j :: 0 <= j < |hdr| && !hdr[j].busy ==> Age(clock, hdr[j].time) <= Age(clock, hdr[i].time))
  }

  lemma CleaningKeepsOldest(hdr: seq<Hdr>, clock: int, i: nat)
    requires IsOldest(hdr, clock, i)
    ensures IsOldest(hdr[i := hdr[i].(dirty := false)], clock, i)
  {
  }

  /** The pool as a value: headers and data, the index from names to buffers, the
      holds, and the contents the pool's users see. */
  datatype Pool<T> = Pool(hdr: seq<Hdr>, data: seq<T>, slotOf: map<BlockId, nat>, holds: Holds, view: View<T>)

  ghost predicate Shaped<T>(p: Pool<T>) {
    && |p.hdr| == |p.data| == NBUFS && IsPoolView(p.view)
    && (forall i :: i in p.holds ==> i < NBUFS)
  }

  /** Every named buffer is the one its name leads to; unnamed buffers are clean. */
  ghost predicate Tagged(hdr: seq<Hdr>, slotOf: map<BlockId, nat>)
    requires |hdr| == NBUFS
  {
    forall i :: 0 <= i < NBUFS ==>
      if hdr[i].id.dev == -1 then !hdr[i].dirty
      else ValidBuf(hdr[i].id) && hdr[i].id in slotOf && slotOf[hdr[i].id] == i
  }

  ghost predicate Indexed(hdr: seq<Hdr>, slotOf: map<BlockId, nat>)
    requires |hdr| == NBUFS
  {
    forall id :: id in slotOf ==> slotOf[id] < NBUFS && hdr[slotOf[id]].id == id && id.dev != -1
  }

  /** Busy buffers are the held ones, each held under its name. */
  ghost predicate Held(hdr: seq<Hdr>, holds: Holds)
    requires |hdr| == NBUFS && forall i :: i in holds ==> i < NBUFS
  {
    && (forall i :: 0 <= i < NBUFS ==> (hdr[i].busy <==> i in holds))
    && (forall i :: i in holds ==>
          if hdr[i].id.dev == -1 then holds[i] == Tmp else holds[i].Named? && holds[i].id == hdr[i].id)
  }

  /** The view is what pool and cache together hold. */
  ghost predicate Seen<T>(data: seq<T>, slotOf: map<BlockId, nat>, view: View<T>, below: View<T>)
    requires |data| == NBUFS && IsPoolView(view) && IsView(below)
    requires forall id :: id in slotOf ==> slotOf[id] < NBUFS
  {
    forall id :: ValidBuf(id) ==> view[id] == if id in slotOf then data[slotOf[id]] else below[CacheId(id)]
  }

  /** An unedited clean buffer equals what the cache holds. */
  ghost predicate Clean<T>(hdr: seq<Hdr>, data: seq<T>, holds: Holds, below: View<T>)
    requires |hdr| == |data| == NBUFS && IsView(below)
  {
    forall i :: 0 <= i < NBUFS && ValidBuf(hdr[i].id) && !hdr[i].dirty && !Edited(holds, i) ==>
      data[i] == below[CacheId(hdr[i].id)]
  }

  ghost predicate PoolContents<T>(p: Pool<T>, below: View<T>)
    requires Shaped(p) && IsView(below)
  {
    && Tagged(p.hdr, p.slotOf) && Indexed(p.hdr, p.slotOf) && Held(p.hdr, p.holds)
    && Seen(p.data, p.slotOf, p.view, below) && Clean(p.hdr, p.data, p.holds, below)
  }

  /** The well-formed pool over the cache contents below. */
  ghost predicate PoolOk<T>(p: Pool<T>, below: View<T>) {
    Shaped(p) && IsView(below) && PoolContents(p, below)
  }

  /** Some buffer is free unless all are held. */
  lemma SomeFree<T>(p: Pool<T>, below: View<T>)
    requires PoolOk(p, below) && |p.holds| < NBUFS
    ensures exists i :: 0 <= i < NBUFS && !p.hdr[i].busy
  {
    assert |p.holds.Keys| < |Upto(NBUFS)|;
    assert p.holds.Keys <= Upto(NBUFS);
    assert |Upto(NBUFS) - p.holds.Keys| == NBUFS - |p.holds|;
    var i :| i in Upto(NBUFS) - p.holds.Keys;
    assert !p.hdr[i].busy;
  }

  lemma HeaderFacts<T>(p: Pool<T>, below: View<T>, i: nat)
    requires PoolOk(p, below) && i < NBUFS
    ensures |p.hdr| == |p.data| == NBUFS
    ensures p.hdr[i].id.dev == -1 ==> !p.hdr[i].dirty
    ensures p.hdr[i].id.dev != -1 ==> ValidBuf(p.hdr[i].id) && p.view[p.hdr[i].id] == p.data[i]
    ensures p.hdr[i].busy <==> i in p.holds
    ensures i in p.holds ==>
              if p.hdr[i].id.dev == -1 then p.holds[i] == Tmp else p.holds[i].Named? && p.holds[i].id == p.hdr[i].id
  {
  }

  /** Writing a buffer to the cache changes no content, and lets it be marked clean. */
  lemma WriteOutKeeps<T>(p: Pool<T>, below: View<T>, i: nat)
    requires PoolOk(p, below) && i < NBUFS && p.hdr[i].id.dev != -1
    ensures PoolOk(p, below[CacheId(p.hdr[i].id) := p.data[i]])
  {
  }

  lemma CleanedKeeps<T>(p: Pool<T>, below: View<T>, i: nat)
    requires PoolOk(p, below) && i < NBUFS && p.hdr[i].id.dev != -1
    requires CacheId(p.hdr[i].id) in below && below[CacheId(p.hdr[i].id)] == p.data[i]
    ensures PoolOk(p.(hdr := p.hdr[i := p.hdr[i].(dirty := false)]), below)
  {
  }

  /** Two contents of the pool's names without the old name of buffer h, and with a
      new one unless the buffer becomes scratch. */
  function Reindexed(hdr: seq<Hdr>, slotOf: map<BlockId, nat>, h: nat, id: BlockId): (m: map<BlockId, nat>)
    requires h < |hdr|
  {
    if id.dev == -1 then slotOf - {hdr[h].id} else (slotOf - {hdr[h].id})[id := h]
  }

  lemma ReindexKeeps(hdr: seq<Hdr>, slotOf: map<BlockId, nat>, h: nat, id: BlockId, time: int)
    requires |hdr| == NBUFS && Tagged(hdr, slotOf) && Indexed(hdr, slotOf) && h < NBUFS
    requires id.dev == -1 || (ValidBuf(id) && id !in slotOf)
    ensures Tagged(hdr[h := Hdr(id, false, true, time)], Reindexed(hdr, slotOf, h, id))
    ensures Indexed(hdr[h := Hdr(id, false, true, time)], Reindexed(hdr, slotOf, h, id))
  {
  }

  lemma RehangKeeps(hdr: seq<Hdr>, holds: Holds, h: nat, id: BlockId, hold: Hold, time: int)
    requires |hdr| == NBUFS && h < NBUFS && (forall i :: i in holds ==> i < NBUFS) && Held(hdr, holds)
    requires if id.dev == -1 then hold == Tmp else hold.Named? && hold.id == id
    ensures Held(hdr[h := Hdr(id, false, true, time)], holds[h := hold])
  {
  }

  /** The pool after the free buffer h was named after block id, or made scratch. */
  function Renamed<T>(p: Pool<T>, h: nat, id: BlockId, d: T, hold: Hold, time: int): Pool<T>
    requires h < |p.hdr| && h < |p.data|
  {
    Pool(p.hdr[h := Hdr(id, false, true, time)], p.data[h := d], Reindexed(p.hdr, p.slotOf, h, id),
         p.holds[h := hold], if id.dev == -1 then p.view else p.view[id := d])
  }

  lemma RenameSeen<T>(p: Pool<T>, below: View<T>, h: nat, id: BlockId, d: T, hold: Hold, time: int)
    requires Shaped(p) && IsView(below) && h < NBUFS && Tagged(p.hdr, p.slotOf) && Indexed(p.hdr, p.slotOf)
    requires Seen(p.data, p.slotOf, p.view, below) && Clean(p.hdr, p.data, p.holds, below)
    requires !p.hdr[h].dirty && !Edited(p.holds, h)
    requires id.dev == -1 || (ValidBuf(id) && id !in p.slotOf)
    requires forall i :: i in Reindexed(p.hdr, p.slotOf, h, id) ==> Reindexed(p.hdr, p.slotOf, h, id)[i] < NBUFS
    ensures var q := Renamed(p, h, id, d, hold, time); IsPoolView(q.view) && Seen(q.data, q.slotOf, q.view, below)
  {
    var q := Renamed(p, h, id, d, hold, time);
    forall i | ValidBuf(i) ensures q.view[i] == if i in q.slotOf then q.data[q.slotOf[i]] else below[CacheId(i)] {
      if i in p.slotOf && i != p.hdr[h].id { assert p.slotOf[i] != h; }
    }
  }

  lemma RenameClean<T>(p: Pool<T>, below: View<T>, h: nat, id: BlockId, d: T, hold: Hold, time: int)
    requires Shaped(p) && IsView(below) && h < NBUFS && Clean(p.hdr, p.data, p.holds, below)
    requires id.dev == -1 || (ValidBuf(id) && hold.Named? && (hold.edited || d == below[CacheId(id)]))
    ensures var q := Renamed(p, h, id, d, hold, time); Clean(q.hdr, q.data, q.holds, below)
  {
    var q := Renamed(p, h, id, d, hold, time);
    forall i | 0 <= i < NBUFS && i != h ensures Edited(p.holds, i) == Edited(q.holds, i) {}
  }

  lemma RenameKeeps<T>(p: Pool<T>, below: View<T>, h: nat, id: BlockId, d: T, hold: Hold, time: int)
    requires PoolOk(p, below) && h < NBUFS && h !in p.holds && !p.hdr[h].dirty
    requires if id.dev == -1 then hold == Tmp else
             && ValidBuf(id) && hold.Named? && hold.id == id && id !in p.slotOf
             && (hold.edited || d == below[CacheId(id)])
    ensures PoolOk(Renamed(p, h, id, d, hold, time), below)
    ensures hold.Named? && !hold.edited ==> p.view[id] == d
  {
    ReindexKeeps(p.hdr, p.slotOf, h, id, time);
    RehangKeeps(p.hdr, p.holds, h, id, hold, time);
    RenameSeen(p, below, h, id, d, hold, time);
    RenameClean(p, below, h, id, d, hold, time);
    if id.dev != -1 { NotNamed(p, below, id); }
    hide Tagged, Indexed, Held, Seen, Clean;
  }

  lemma NotNamed<T>(p: Pool<T>, below: View<T>, id: BlockId)
    requires PoolOk(p, below) && ValidBuf(id) && id !in p.slotOf
    ensures p.view[id] == below[CacheId(id)]
  {
  }

  function HandedOut(hdr: seq<Hdr>, h: nat, time: int): seq<Hdr>
    requires h < |hdr|
  {
    hdr[h := hdr[h].(busy := true, time := time)]
  }

  /** Handing out a buffer already named after the block. */
  lemma HandOutKeeps<T>(p: Pool<T>, below: View<T>, id: BlockId, edited: bool, time: int)
    requires PoolOk(p, below) && id in p.slotOf && p.slotOf[id] < NBUFS && p.slotOf[id] !in p.holds
    ensures var h := p.slotOf[id];
            PoolOk(p.(hdr := HandedOut(p.hdr, h, time), holds := p.holds[h := Named(id, edited)]), below)
  {
    var h := p.slotOf[id];
    assert p.hdr[h].id == id && id.dev != -1 by { assert Indexed(p.hdr, p.slotOf); }
    HandOutTags(p.hdr, p.slotOf, h, time);
    HandOutHeld(p.hdr, p.holds, h, edited, time);
    HandOutClean(p, below, h, edited, time);
    hide Tagged, Indexed, Held, Seen, Clean;
  }

  lemma HandOutTags(hdr: seq<Hdr>, slotOf: map<BlockId, nat>, h: nat, time: int)
    requires |hdr| == NBUFS && Tagged(hdr, slotOf) && Indexed(hdr, slotOf) && h < NBUFS
    ensures Tagged(HandedOut(hdr, h, time), slotOf) && Indexed(HandedOut(hdr, h, time), slotOf)
  {
  }

  lemma HandOutHeld(hdr: seq<Hdr>, holds: Holds, h: nat, edited: bool, time: int)
    requires |hdr| == NBUFS && (forall i :: i in holds ==> i < NBUFS)
    requires Held(hdr, holds) && h < NBUFS && hdr[h].id.dev != -1
    ensures Held(HandedOut(hdr, h, time), holds[h := Named(hdr[h].id, edited)])
  {
  }

  lemma HandOutClean<T>(p: Pool<T>, below: View<T>, h: nat, edited: bool, time: int)
    requires Shaped(p) && IsView(below) && h < NBUFS && Clean(p.hdr, p.data, p.holds, below) && h !in p.holds
    ensures Clean(HandedOut(p.hdr, h, time), p.data, p.holds[h := Named(p.hdr[h].id, edited)], below)
  {
    var holds := p.holds[h := Named(p.hdr[h].id, edited)];
    forall i | 0 <= i < NBUFS && i != h ensures Edited(p.holds, i) == Edited(holds, i) {}
  }

  /** The holder edits its buffer. */
  lemma EditKeeps<T>(p: Pool<T>, below: View<T>, h: nat, d: T)
    requires PoolOk(p, below) && h in p.holds && p.holds[h].Named?
    ensures var id := p.holds[h].id;
            PoolOk(p.(data := p.data[h := d], view := p.view[id := d], holds := p.holds[h := Named(id, true)]), below)
  {
    var id := p.holds[h].id;
    HeaderFacts(p, below, h);
    EditHeld(p.hdr, p.holds, h);
    EditSeen(p, below, h, d);
    EditClean(p, below, h, d);
    hide Tagged, Indexed, Held, Seen, Clean;
  }

  lemma EditHeld(hdr: seq<Hdr>, holds: Holds, h: nat)
    requires |hdr| == NBUFS && (forall i :: i in holds ==> i < NBUFS)
    requires Held(hdr, holds) && h in holds && holds[h].Named?
    ensures Held(hdr, holds[h := Named(holds[h].id, true)])
  {
  }

  lemma EditSeen<T>(p: Pool<T>, below: View<T>, h: nat, d: T)
    requires Shaped(p) && IsView(below) && h < NBUFS && Tagged(p.hdr, p.slotOf) && Indexed(p.hdr, p.slotOf)
    requires Seen(p.data, p.slotOf, p.view, below) && ValidBuf(p.hdr[h].id)
    ensures IsPoolView(p.view[p.hdr[h].id := d]) && Seen(p.data[h := d], p.slotOf, p.view[p.hdr[h].id := d], below)
  {
    var id := p.hdr[h].id;
    forall i | ValidBuf(i)
      ensures p.view[id := d][i] == if i in p.slotOf then p.data[h := d][p.slotOf[i]] else below[CacheId(i)]
    {
      if i in p.slotOf && i != id { assert p.slotOf[i] != h; }
    }
  }

  lemma EditClean<T>(p: Pool<T>, below: View<T>, h: nat, d: T)
    requires Shaped(p) && IsView(below) && Clean(p.hdr, p.data, p.holds, below) && h in p.holds && p.holds[h].Named?
    ensures Clean(p.hdr, p.data[h := d], p.holds[h := Named(p.holds[h].id, true)], below)
  {
    var holds := p.holds[h := Named(p.holds[h].id, true)];
    assert Edited(holds, h);
    forall i | 0 <= i < NBUFS && i != h ensures Edited(p.holds, i) == Edited(holds, i) {}
  }

  function Released(hdr: seq<Hdr>, h: nat, dirty: bool): seq<Hdr>
    requires h < |hdr|
  {
    hdr[h := hdr[h].(dirty := hdr[h].dirty || dirty, busy := false)]
  }

  /** Releasing a buffer, marked dirty if it was edited. */
  lemma ReleaseKeeps<T>(p: Pool<T>, below: View<T>, h: nat, dirty: bool)
    requires PoolOk(p, below) && h in p.holds
    requires Edited(p.holds, h) ==> dirty
    requires p.holds[h] == Tmp ==> !dirty
    ensures PoolOk(p.(hdr := Released(p.hdr, h, dirty), holds := p.holds - {h}), below)
  {
    HeaderFacts(p, below, h);
    ReleaseTags(p.hdr, p.slotOf, h, dirty);
    ReleaseHeld(p.hdr, p.holds, h, dirty);
    ReleaseClean(p, below, h, dirty);
    hide Tagged, Indexed, Held, Seen, Clean;
  }

  lemma ReleaseTags(hdr: seq<Hdr>, slotOf: map<BlockId, nat>, h: nat, dirty: bool)
    requires |hdr| == NBUFS && Tagged(hdr, slotOf) && Indexed(hdr, slotOf) && h < NBUFS
    requires hdr[h].id.dev == -1 ==> !dirty
    ensures Tagged(Released(hdr, h, dirty), slotOf) && Indexed(Released(hdr, h, dirty), slotOf)
  {
  }

  lemma ReleaseHeld(hdr: seq<Hdr>, holds: Holds, h: nat, dirty: bool)
    requires |hdr| == NBUFS && (forall i :: i in holds ==> i < NBUFS) && Held(hdr, holds) && h in holds
    ensures Held(Released(hdr, h, dirty), holds - {h})
  {
  }

  lemma ReleaseClean<T>(p: Pool<T>, below: View<T>, h: nat, dirty: bool)
    requires Shaped(p) && IsView(below) && Clean(p.hdr, p.data, p.holds, below) && h in p.holds
    requires Edited(p.holds, h) ==> dirty
    ensures Clean(Released(p.hdr, h, dirty), p.data, p.holds - {h}, below)
  {
    forall i | 0 <= i < NBUFS && i != h ensures Edited(p.holds, i) == Edited(p.holds - {h}, i) {}
  }

  /** A block whose buffer was edited by its holder and is not yet marked dirty. */
  ghost predicate InFlux<T>(p: Pool<T>, id: BlockId)
    requires Shaped(p)
  {
    exists h :: h in p.holds && p.holds[h] == Named(id, true) && !p.hdr[h].dirty
  }

  /** Once every dirty buffer's content is in the cache, the cache agrees with the
      pool's view on every block that is not being edited. */
  lemma CleanPoolAgrees<T>(p: Pool<T>, below: View<T>)
    requires PoolOk(p, below)
    requires forall i :: 0 <= i < NBUFS && p.hdr[i].dirty && p.hdr[i].id.dev != -1 ==>
      CacheId(p.hdr[i].id) in below && below[CacheId(p.hdr[i].id)] == p.data[i]
    ensures forall id :: ValidBuf(id) && !InFlux(p, id) ==> below[CacheId(id)] == p.view[id]
  {
  }

  lemma NamesUnique<T>(p: Pool<T>, below: View<T>, h: nat)
    requires PoolOk(p, below) && h in p.holds
    ensures p.holds[h].Named? ==> p.holds[h].id !in Names(p.holds - {h})
  {
  }

  /** A block in the pool that nobody holds has a free buffer. */
  lemma Unheld<T>(p: Pool<T>, below: View<T>, id: BlockId)
    requires PoolOk(p, below) && id in p.slotOf && id !in Names(p.holds)
    ensures p.slotOf[id] < NBUFS && p.slotOf[id] !in p.holds
  {
  }

  lemma SameNameSameBuffer<T>(p: Pool<T>, below: View<T>, i: nat, j: nat)
    requires PoolOk(p, below) && i < NBUFS && j < NBUFS && p.hdr[i].id.dev != -1 && p.hdr[j].id.dev != -1
    ensures CacheId(p.hdr[i].id) == CacheId(p.hdr[j].id) ==> i == j
  {
  }

  class BufferPool<T> {
    const cache: WriteCache<T>
    var hdr: seq<Hdr>
    var data: seq<T>
    var bufclock: int

    ghost var view: View<T>
    ghost var slotOf: map<BlockId, nat>
    ghost var holds: Holds
    ghost var peak: nat     // most buffers ever held at once

    ghost function State(): Pool<T>
      reads this
    {
      Pool(hdr, data, slotOf, holds, view)
    }

    ghost predicate Valid()
      reads this, cache
    {
      && cache.Valid()
      && PoolOk(State(), cache.view)
      && |holds| <= peak
    }

    /** `bufinit`, over a cache that may already hold blocks. */
    constructor (cache: WriteCache<T>, blank: T)
      requires cache.Valid()
      ensures Valid() && this.cache == cache && holds == map[] && peak == 0 && NoneDirty()
      ensures forall id :: ValidBuf(id) ==> view[id] == cache.view[CacheId(id)]
    {
      this.cache := cache;
      hdr := seq(NBUFS, _ => Hdr(BlockId(-1, 0), false, false, 0));
      data := seq(NBUFS, _ => blank);
      bufclock := 0;
      view := imap id | ValidBuf(id) :: cache.view[CacheId(id)];
      slotOf, holds, peak := map[], map[], 0;
    }

    /** `bfind`: the buffer named after a block, or NBUFS. */
    method Bfind(dev: int, blk: int) returns (i: nat)
      requires Valid() && ValidBuf(BlockId(dev, blk))
      ensures i < NBUFS ==> BlockId(dev, blk) in slotOf && slotOf[BlockId(dev, blk)] == i
      ensures i >= NBUFS ==> BlockId(dev, blk) !in slotOf
    {
      hide Seen, Clean, Held, Agree, Settled;
      i := 0;
      while i < NBUFS
        invariant 0 <= i <= NBUFS
        invariant forall j :: 0 <= j < i ==> hdr[j].id != BlockId(dev, blk)
      {
        if hdr[i].id.dev == dev && hdr[i].id.blk == blk {
          assert hdr[i].id == BlockId(dev, blk);
          return;
        }
        i := i + 1;
      }
    }

    /** `bdwrite`: the buffer's bytes go to the cache. */
    method Bdwrite(i: nat)
      requires Valid() && i < NBUFS && hdr[i].id.dev != -1
      modifies cache
      ensures Valid() && CacheId(hdr[i].id) in cache.view
      ensures cache.view == old(cache.view)[CacheId(hdr[i].id) := data[i]]
      ensures PoolOk(State().(hdr := hdr[i := hdr[i].(dirty := false)]), cache.view)
      ensures cache.Sweep() == old(cache.Sweep()) && old(cache.log) <= cache.log
    {
      hide PoolContents, Agree;
      WriteOutKeeps(State(), cache.view, i);
      HeaderFacts(State(), cache.view, i);
      var _ := cache.Setup(1, CacheId(hdr[i].id), data[i]);
      CleanedKeeps(State(), cache.view, i);
    }

    /** The buffer that `freebuf` picks: the oldest of those not busy. */
    method FindOldest() returns (oldest: nat)
      requires Valid() && |holds| < NBUFS
      ensures oldest < NBUFS && IsOldest(hdr, bufclock, oldest)
    {
      hide PoolContents, Agree;
      SomeFree(State(), cache.view);
      oldest := NBUFS;
      var oldtime := 0;
      var bp := 0;
      while bp < NBUFS
        invariant 0 <= bp <= NBUFS && oldtime >= 0
        invariant oldest == NBUFS ==> oldtime == 0 && forall j :: 0 <= j < bp ==> hdr[j].busy
        invariant oldest != NBUFS ==> oldest < bp && !hdr[oldest].busy && oldtime == Age(bufclock, hdr[oldest].time)
        invariant forall j :: 0 <= j < bp && !hdr[j].busy ==> Age(bufclock, hdr[j].time) <= oldtime
      {
        if Age(bufclock, hdr[bp].time) >= oldtime && !hdr[bp].busy {
          oldest := bp;
          oldtime := Age(bufclock, hdr[bp].time);
        }
        bp := bp + 1;
      }
    }

    /** `freebuf`: the least recently used buffer that is not busy, written out first
        when dirty. No block's content changes. */
    method FreeBuf() returns (oldest: nat)
      requires Valid() && |holds| < NBUFS
      modifies this`hdr, cache
      ensures Valid() && cache.Sweep() == old(cache.Sweep()) && old(cache.log) <= cache.log
      ensures oldest < NBUFS && oldest !in holds && !hdr[oldest].dirty
      ensures IsOldest(hdr, bufclock, oldest)
      ensures hdr == old(hdr)[oldest := old(hdr)[oldest].(dirty := false)]
    {
      hide PoolContents, Agree;
      oldest := FindOldest();
      HeaderFacts(State(), cache.view, oldest);
      if hdr[oldest].dirty {
        Bdwrite(oldest);
        CleaningKeepsOldest(hdr, bufclock, oldest);
        hdr := hdr[oldest := hdr[oldest].(dirty := false)];
      }
    }

    /** Records that a buffer made busy is now held. */
    ghost method Take(h: nat, hold: Hold)
      requires cache.Valid() && h !in holds && |holds| <= peak
      requires PoolOk(State().(holds := holds[h := hold]), cache.view)
      modifies this`holds, this`peak
      ensures Valid() && holds == old(holds)[h := hold]
      ensures Names(holds) == Names(old(holds)) + (if hold.Named? then {hold.id} else {})
      ensures peak == if |holds| > old(peak) then |holds| else old(peak)
    {
      hide PoolContents, Agree, Names;
      NamesTaken(holds, h, hold);
      holds := holds[h := hold];
      peak := if |holds| > peak then |holds| else peak;
    }

    /** The half of `bread` for a block in the pool: its buffer becomes busy. */
    method HandOut(h: nat, id: BlockId, edited: bool)
      requires Valid() && h < NBUFS && id in slotOf && slotOf[id] == h && id !in Names(holds)
      modifies this`hdr
      ensures hdr == old(hdr)[h := old(hdr)[h].(busy := true, time := bufclock)]
      ensures h !in holds && PoolOk(State().(holds := holds[h := Named(id, edited)]), cache.view)
    {
      hide PoolContents, Agree;
      Unheld(State(), cache.view, id);
      HandOutKeeps(State(), cache.view, id, edited, bufclock);
      hdr := hdr[h := hdr[h].(busy := true, time := bufclock)];
    }

    /** Names a free buffer after a block, or takes it away from its block, and stamps it. */
    method Rename(h: nat, id: BlockId, d: T, ghost hold: Hold)
      requires PoolOk(State(), cache.view) && h < NBUFS && h !in holds && !hdr[h].dirty
      requires if id.dev == -1 then hold == Tmp else
               && ValidBuf(id) && hold.Named? && hold.id == id && id !in slotOf
               && (hold.edited || d == cache.view[CacheId(id)])
      modifies this`hdr, this`data, this`view, this`slotOf, this`bufclock
      ensures PoolOk(State().(holds := holds[h := hold]), cache.view)
      ensures h < |data| && data[h] == d && bufclock == (old(bufclock) + 1) % 65536
      ensures hdr == old(hdr)[h := Hdr(id, false, true, bufclock)]
      ensures view == (if id.dev == -1 then old(view) else old(view)[id := d])
      ensures hold.Named? && !hold.edited ==> view == old(view)
    {
      hide PoolContents, Agree, Names, Coherent, Reindexed;
      bufclock := (bufclock + 1) % 65536;
      ghost var p := Renamed(State(), h, id, d, hold, bufclock);
      RenameKeeps(State(), cache.view, h, id, d, hold, bufclock);
      hdr := hdr[h := Hdr(id, false, true, bufclock)];
      data := data[h := d];
      slotOf, view := p.slotOf, p.view;
      assert State().(holds := holds[h := hold]) == p;
    }

    /** The half of `bread` for a block outside the pool: the oldest free buffer is
        renamed after it, and filled unless the caller will rewrite it all. */
    method Claim(id: BlockId, rewrite: int) returns (h: nat)
      requires Valid() && ValidBuf(id) && id !in slotOf && |holds| < NBUFS
      modifies this`hdr, this`data, this`view, this`slotOf, this`bufclock, cache
      ensures cache.Valid() && h !in holds && id in view
      ensures h < |hdr| && hdr[h].time == bufclock == (old(bufclock) + 1) % 65536
      ensures forall i :: 0 <= i < |hdr| && i != h ==> i < |old(hdr)| && hdr[i].time == old(hdr)[i].time
      ensures cache.Sweep() == old(cache.Sweep()) && old(cache.log) <= cache.log
      ensures PoolOk(State().(holds := holds[h := Named(id, rewrite != 0)]), cache.view)
      ensures view == old(view)[id := view[id]] && (rewrite == 0 ==> view == old(view))
    {
      hide PoolOk, IsOldest, Names, cache.Tables, SweepOwes;
      HeaderFacts(State(), cache.view, 0);
      h := FreeBuf();
      HeaderFacts(State(), cache.view, h);
      var d := data[h];
      if rewrite == 0 {
        d := cache.Setup(0, CacheId(id), d);
      }
      Rename(h, id, d, Named(id, rewrite != 0));
    }

    /** The oldest free buffer, taken away from its block. */
    method ClaimScratch(zero: T) returns (h: nat)
      requires Valid() && |holds| < NBUFS
      modifies this`hdr, this`data, this`view, this`slotOf, this`bufclock, cache
      ensures h < |hdr| && hdr[h].time == bufclock == (old(bufclock) + 1) % 65536
      ensures forall i :: 0 <= i < |hdr| && i != h ==> i < |old(hdr)| && hdr[i].time == old(hdr)[i].time
      ensures cache.Sweep() == old(cache.Sweep()) && old(cache.log) <= cache.log
      ensures cache.Valid() && h !in holds && h < |data| && data[h] == zero && view == old(view)
      ensures PoolOk(State().(holds := holds[h := Tmp]), cache.view)
    {
      hide PoolOk, IsOldest, Names, cache.Tables, SweepOwes;
      HeaderFacts(State(), cache.view, 0);
      h := FreeBuf();
      HeaderFacts(State(), cache.view, h);
      Rename(h, BlockId(-1, hdr[h].id.blk), zero, Tmp);
    }

    /** `bread`: hands out the buffer of a block, busy. The kernel panics when that
        block is already held ("want busy block") or all buffers are. Without rewrite
        the buffer holds the block's content; with it the content may be lost. */
    method Bread(dev: int, blk: int, rewrite: int) returns (h: nat)
      requires Valid() && ValidBuf(BlockId(dev, blk))
      requires BlockId(dev, blk) !in Names(holds) && |holds| < NBUFS
      modifies this, cache
      ensures Valid() && cache.Sweep() == old(cache.Sweep()) && old(cache.log) <= cache.log
      ensures h !in old(holds) && holds == old(holds)[h := Named(BlockId(dev, blk), rewrite != 0)]
      ensures Names(holds) == Names(old(holds)) + {BlockId(dev, blk)}
      ensures h < |hdr| && hdr[h].time == bufclock == (old(bufclock) + 1) % 65536
      ensures forall i :: 0 <= i < |hdr| && i != h ==> i < |old(hdr)| && hdr[i].time == old(hdr)[i].time
      ensures rewrite == 0 ==> view == old(view)
      ensures view == old(view)[BlockId(dev, blk) := view[BlockId(dev, blk)]]
      ensures peak == if |holds| > old(peak) then |holds| else old(peak)
    {
      hide PoolContents, Agree, Names;
      h := Bfind(dev, blk);
      if h < NBUFS {
        bufclock := (bufclock + 1) % 65536;
        HandOut(h, BlockId(dev, blk), rewrite != 0);
      } else {
        h := Claim(BlockId(dev, blk), rewrite);
      }
      Take(h, Named(BlockId(dev, blk), rewrite != 0));
    }

    /** `tmpbuf` and `zerobuf`: a busy buffer that belongs to no device. */
    method ZeroBuf(zero: T) returns (h: nat)
      requires Valid() && |holds| < NBUFS
      modifies this, cache
      ensures Valid() && cache.Sweep() == old(cache.Sweep()) && old(cache.log) <= cache.log
      ensures h !in old(holds) && holds == old(holds)[h := Tmp] && h < |data| && data[h] == zero
      ensures Names(holds) == Names(old(holds))
      ensures h < |hdr| && hdr[h].time == bufclock == (old(bufclock) + 1) % 65536
      ensures forall i :: 0 <= i < |hdr| && i != h ==> i < |old(hdr)| && hdr[i].time == old(hdr)[i].time
      ensures view == old(view)
      ensures peak == if |holds| > old(peak) then |holds| else old(peak)
    {
      hide PoolContents, Agree, Names;
      h := ClaimScratch(zero);
      Take(h, Tmp);
    }

    /** The bytes of a held buffer. */
    method Get(h: nat) returns (d: T)
      requires Valid() && h in holds
      ensures h < |data| && d == data[h]
      ensures holds[h].Named? ==> holds[h].id in view && d == view[holds[h].id]
    {
      hide PoolContents, Agree;
      HeaderFacts(State(), cache.view, h);
      d := data[h];
    }

    /** The holder of a buffer changes its bytes. */
    method Put(h: nat, d: T)
      requires Valid() && h in holds && holds[h].Named?
      modifies this`data, this`view, this`holds
      ensures Valid()
      ensures h in holds && holds[h].Named? && view == old(view)[holds[h].id := d]
      ensures holds == old(holds)[h := Named(old(holds)[h].id, true)] && Names(holds) == Names(old(holds))
    {
      hide PoolContents, Agree, Names;
      EditKeeps(State(), cache.view, h, d);
      ghost var id := holds[h].id;
      data := data[h := d];
      view := view[id := d];
      assert holds[h := Named(id, true)].Keys == holds.Keys;
      NamesEdited(holds, h);
      holds := holds[h := Named(id, true)];
      assert |holds| == |holds.Keys| == |old(holds).Keys|;
    }

    /** `bfree` with dirty 0 (`brelse`), 1 (`bawrite`) or 2 (write at once). An edited
        buffer may not be released as clean, nor a scratch buffer as dirty. */
    method Bfree(h: nat, dirty: int)
      requires Valid() && h in holds && 0 <= dirty <= 2
      requires Edited(holds, h) ==> dirty != 0
      requires holds[h] == Tmp ==> dirty == 0
      modifies this`hdr, this`holds, cache
      ensures Valid() && cache.Sweep() == old(cache.Sweep()) && old(cache.log) <= cache.log
      ensures holds == old(holds) - {h}
      ensures Names(holds) == Names(old(holds)) - (if old(holds)[h].Named? then {old(holds)[h].id} else {})
      ensures dirty == 2 ==> OnlyBelow(old(holds)[h].id)
      ensures h < |old(hdr)| && var was := old(hdr)[h];
              hdr == old(hdr)[h := was.(dirty := dirty == 1 || (dirty == 0 && was.dirty), busy := false)]
    {
      hide PoolContents, Agree, Names;
      HeaderFacts(State(), cache.view, h);
      NamesUnique(State(), cache.view, h);
      NamesOfHold(holds, h);
      ReleaseKeeps(State(), cache.view, h, dirty != 0);
      hdr := hdr[h := hdr[h].(dirty := hdr[h].dirty || dirty != 0, busy := false)];
      holds := holds - {h};
      assert |holds| == |holds.Keys| && holds.Keys == old(holds).Keys - {h};
      if dirty == 2 {
        Bdwrite(h);
        hdr := hdr[h := hdr[h].(dirty := false)];
      }
    }

    /** The cache holds the block's content. */
    ghost predicate OnlyBelow(id: BlockId)
      reads this, cache
    {
      id in view && CacheId(id) in cache.view && cache.view[CacheId(id)] == view[id]
    }

    /** A buffer after `bufsync`: dirty only if somebody holds it. */
    function Flushed(b: Hdr): Hdr {
      if b.id.dev != -1 && !b.busy then b.(dirty := false) else b
    }

    /** `bufsync`: writes every dirty buffer to the cache. Afterwards the cache alone
        holds every block that is not being edited. */
    method BufSync()
      requires Valid()
      modifies this`hdr, cache
      ensures Valid() && cache.Sweep() == old(cache.Sweep()) && old(cache.log) <= cache.log
      ensures forall id :: ValidBuf(id) && !InFlux(State(), id) ==> cache.view[CacheId(id)] == view[id]
      ensures old(NoneDirty()) ==> CacheState() == old(CacheState())
      ensures |hdr| == |old(hdr)| == NBUFS
      ensures forall i :: 0 <= i < NBUFS ==> hdr[i] == Flushed(old(hdr)[i])
    {
      hide PoolContents, Agree;
      var bp := 0;
      while bp < NBUFS
        invariant old(NoneDirty()) ==> hdr == old(hdr) && CacheState() == old(CacheState())
        invariant 0 <= bp <= NBUFS && Valid() && cache.Sweep() == old(cache.Sweep()) && old(cache.log) <= cache.log
        invariant |hdr| == |old(hdr)| == NBUFS
        invariant forall i :: 0 <= i < NBUFS ==> hdr[i] == if i < bp then Flushed(old(hdr)[i]) else old(hdr)[i]
        invariant forall j :: 0 <= j < bp && hdr[j].dirty && hdr[j].id.dev != -1 ==>
          CacheId(hdr[j].id) in cache.view && cache.view[CacheId(hdr[j].id)] == data[j]
      {
        if hdr[bp].id.dev != -1 && hdr[bp].dirty {
          ghost var before := cache.view;
          Bdwrite(bp);
          forall j | 0 <= j < bp && hdr[j].dirty && hdr[j].id.dev != -1
            ensures CacheId(hdr[j].id) in cache.view && cache.view[CacheId(hdr[j].id)] == data[j]
          {
            SameNameSameBuffer(State(), cache.view, j, bp);
          }
          if !hdr[bp].busy {
            hdr := hdr[bp := hdr[bp].(dirty := false)];
          }
        }
        bp := bp + 1;
      }
      CleanPoolAgrees(State(), cache.view);
    }

    /** The tail of `_sync`: empties the pool and, in a system call while no sweep is
        under way, the cache. Then the disk alone holds every block not being edited;
        otherwise the disk is current exactly if the dirty slots of the cache happen to
        equal their sectors, and the cache is left alone if no buffer was dirty. */
    method Sync(insys: bool)
      requires Valid()
      modifies this`hdr, cache
      ensures Valid() && old(cache.log) <= cache.log
      ensures cache.Sweep() == old(cache.Sweep())
      ensures forall id :: ValidBuf(id) && !InFlux(State(), id) ==> cache.view[CacheId(id)] == view[id]
      ensures insys && cache.inCasync != 1 ==>
                forall id :: ValidBuf(id) && !InFlux(State(), id) ==> cache.disk[cache.at[CacheId(id)]] == view[id]
      ensures DiskCurrent() <==>
              ((insys && cache.inCasync != 1)
               || forall k :: 0 <= k < MAX_CACHE && cache.slots[k].dirty ==> SlotCurrent(k))
      ensures !(insys && cache.inCasync != 1) && old(NoneDirty()) ==> CacheState() == old(CacheState())
    {
      hide PoolContents, Agree, DirtyCount;
      BufSync();
      if insys && cache.inCasync != 1 {
        cache.CaSync();
      }
      DiskIsCurrent(cache.at, cache.disk, cache.slots, cache.mem, cache.view);
    }

    ghost predicate NoneDirty()
      reads this`hdr
    {
      |hdr| == NBUFS && forall i :: 0 <= i < NBUFS ==> !hdr[i].dirty
    }

    /** The disk alone holds what the cache and the disk hold together. */
    ghost predicate DiskCurrent()
      requires Valid()
      reads this, cache
    {
      forall id :: WriteCaches.ValidId(id) ==> cache.disk[cache.at[id]] == cache.view[id]
    }

    ghost predicate SlotCurrent(k: nat)
      requires Valid() && k < MAX_CACHE && cache.slots[k].dirty
      reads this, cache
    {
      cache.mem[k] == cache.disk[cache.at[cache.slots[k].id]]
    }

    ghost function CacheState(): (imap<Sector, T>, seq<CaBuf>, seq<T>, View<T>)
      reads cache
    {
      (cache.disk, cache.slots, cache.mem, cache.view)
    }
  }

  /** An input for which `_sync` does not bring the disk up to date: a block was written
      to an empty cache, and the flusher has just started. */
  method SyncInput<T>(geo: Geometry, disk: imap<Sector, T>, blank: T, id: BlockId, b: T) returns (pool: BufferPool<T>)
    requires geo.Disjoint() && IsDisk(disk) && WriteCaches.ValidId(id) && disk[Address(geo, id)] != b
    ensures pool.Valid() && !pool.DiskCurrent() && id in pool.cache.view && pool.cache.view[id] == b
  {
    hide Coherent, SweepOwes, DirtyCount, PoolOk;
    var cache := new WriteCache(geo, disk, blank);
    var _ := cache.Setup(1, id, b);
    cache.StartSweep();
    pool := new BufferPool(cache, blank);
    pool.Sync(true);
    assert cache.at[id] == Address(geo, id);
  }
}
