/** How many free blocks an operation on a file takes: the locations on the way to the
    blocks that it goes to, as far as they are empty. */
module Spaces {
  import opened Basics
  import opened BlockTrees

  /** A location and those that lead to it. */
  function WayTo(loc: Loc): (w: set<Loc>)
    requires !loc.Free?
    ensures forall l :: l in w ==> !l.Free?
    ensures loc in w && |w| <= 3
  {
    match loc
    case Root(_, _) => {loc}
    case Sub(ino, k, i) => {Root(ino, k), loc}
    case Leaf(ino, i, j) => {Root(ino, 19), Sub(ino, 19, i), loc}
  }

  /** The locations on the way to block bn of a file. */
  function Way(ino: nat, bn: nat): (w: set<Loc>)
    ensures forall l :: l in w ==> !l.Free?
    ensures |w| <= 3
  {
    WayTo(DataLoc(ino, bn))
  }

  /** Those of some locations that are empty. */
  ghost function Empty(s: Fs, ls: set<Loc>): (e: set<Loc>)
    requires FsShape(s)
    ensures forall l :: l in e <==> l in ls && At(s, l) == 0
  {
    set l | l in ls && At(s, l) == 0
  }

  /** What is missing for block bn of a file. */
  ghost function Missing(s: Fs, ino: nat, bn: nat): set<Loc>
    requires FsShape(s)
  {
    Empty(s, Way(ino, bn))
  }

  /** From s to t the locations `taken` were filled from the free stack, and no others. */
  ghost predicate Took(s: Fs, t: Fs, taken: set<Loc>) {
    && FsShape(s) && FsShape(t) && |s.stack| == |t.stack| + |taken|
    && (forall l :: l in taken ==> !l.Free? && At(s, l) == 0)
    && forall l: Loc {:trigger At(s, l)} {:trigger At(t, l)} :: !l.Free? ==>
         (At(t, l) == 0 <==> At(s, l) == 0 && l !in taken)
  }

  lemma TookNothing(s: Fs)
    requires FsShape(s)
    ensures Took(s, s, {})
  {
  }

  lemma TookCount(s: Fs, t: Fs, taken: set<Loc>)
    requires Took(s, t, taken)
    ensures |t.stack| == |s.stack| - |taken|
  {
  }

  lemma TookBoth(s: Fs, t: Fs, u: Fs, a: set<Loc>, b: set<Loc>)
    requires Took(s, t, a) && Took(t, u, b)
    ensures a !! b && Took(s, u, a + b)
  {
    hide FsShape, At;
    Disjoint(a, b);
  }

  lemma Disjoint(a: set<Loc>, b: set<Loc>)
    ensures a !! b ==> |a + b| == |a| + |b|
  {
  }

  /** Filling the empty ones of more locations. */
  lemma TookMore(s: Fs, t: Fs, u: Fs, ls: set<Loc>, more: set<Loc>)
    requires FsShape(s) && FsShape(t) && Took(s, t, Empty(s, ls)) && Took(t, u, Empty(t, more))
    requires forall l :: l in more ==> !l.Free?
    ensures Took(s, u, Empty(s, ls + more))
  {
    hide FsShape, At;
    TookBoth(s, t, u, Empty(s, ls), Empty(t, more));
    assert Empty(s, ls + more) == Empty(s, ls) + Empty(t, more);
  }

  /** Too few blocks are left for more locations: there were too few for all. */
  lemma TooFew(s: Fs, t: Fs, ls: set<Loc>, more: set<Loc>)
    requires FsShape(s) && FsShape(t) && Took(s, t, Empty(s, ls)) && |Empty(t, more)| > |t.stack|
    requires forall l :: l in more ==> !l.Free?
    ensures |Empty(s, ls + more)| > |s.stack|
  {
    hide FsShape, At;
    assert Empty(s, ls + more) == Empty(s, ls) + Empty(t, more);
    Disjoint(Empty(s, ls), Empty(t, more));
  }

  lemma OneEmpty(s: Fs, l: Loc)
    requires FsShape(s)
    ensures Empty(s, {l}) == if At(s, l) == 0 then {l} else {}
    ensures At(s, l) != 0 ==> Took(s, s, Empty(s, {l}))
    ensures Took(s, s, Empty(s, {}))
  {
    TookNothing(s);
    assert Empty(s, {}) == {};
  }

  /** One more step on a way. */
  lemma TookStep(s: Fs, t: Fs, u: Fs, l: Loc)
    requires (l.Sub? || l.Leaf?) && FsShape(s) && FsShape(t)
    requires Took(s, t, Empty(s, WayTo(ParentOf(l)))) && Took(t, u, Empty(t, {l}))
    ensures Took(s, u, Empty(s, WayTo(l)))
  {
    hide FsShape, At, Took;
    TookMore(s, t, u, WayTo(ParentOf(l)), {l});
    assert WayTo(l) == WayTo(ParentOf(l)) + {l};
  }

  /** Nothing is left for a location on the way: there was too little for the way. */
  lemma NoneLeft(s: Fs, t: Fs, l: Loc, way: set<Loc>)
    requires (l.Sub? || l.Leaf?) && FsShape(s) && FsShape(t) && Took(s, t, Empty(s, WayTo(ParentOf(l))))
    requires At(t, l) == 0 && WayTo(l) <= way && t.stack == []
    ensures |Empty(s, way)| > |s.stack|
  {
    hide FsShape, At, Took;
    OneEmpty(t, l);
    TooFew(s, t, WayTo(ParentOf(l)), {l});
    assert WayTo(l) == WayTo(ParentOf(l)) + {l};
    Fewer(Empty(s, WayTo(l)), Empty(s, way));
  }

  /** The first location on the way is empty, and there is nothing for it. */
  lemma NoneAtAll(s: Fs, l: Loc, way: set<Loc>)
    requires FsShape(s) && l in way && At(s, l) == 0 && s.stack == []
    ensures |Empty(s, way)| > |s.stack|
  {
    hide FsShape, At;
    assert l in Empty(s, way);
  }

  lemma {:induction false} Fewer(a: set<Loc>, b: set<Loc>)
    requires a <= b
    ensures |a| <= |b|
  {
    assert b == a + (b - a);
    Disjoint(a, b - a);
  }

  /** Position p0 advanced by n on a ring of m positions. */
  function Advance(p0: int, n: int, m: int): (p: int)
    ensures 0 <= p0 < m && 0 <= n <= m ==> 0 <= p < m
  {
    if p0 + n >= m then p0 + n - m else p0 + n
  }

  /** The locations on the way to n bytes of a file from position p on. */
  function Ways(ino: nat, p: nat, n: nat, m: nat): (w: set<Loc>)
    requires p < m && n <= m
    ensures forall l :: l in w ==> !l.Free?
  {
    if n == 0 then {} else Ways(ino, p, n - 1, m) + Way(ino, Advance(p, n - 1, m) / 512)
  }

  /** What is missing for n bytes of a file from position p on. */
  ghost function Need(s: Fs, ino: nat, p: nat, n: nat, m: nat): set<Loc>
    requires FsShape(s) && p < m && n <= m
  {
    Empty(s, Ways(ino, p, n, m))
  }

  lemma {:induction false} WaysGrow(ino: nat, p: nat, n: nat, k: nat, m: nat)
    requires p < m && n <= k <= m
    ensures Ways(ino, p, n, m) <= Ways(ino, p, k, m)
    decreases k
  {
    if n < k { WaysGrow(ino, p, n, k - 1, m); }
  }

  /** More bytes need no fewer blocks. */
  lemma NeedGrows(s: Fs, ino: nat, p: nat, n: nat, k: nat, m: nat)
    requires FsShape(s) && p < m && n <= k <= m
    ensures |Need(s, ino, p, n, m)| <= |Need(s, ino, p, k, m)|
  {
    hide At, FsShape;
    WaysGrow(ino, p, n, k, m);
    Fewer(Need(s, ino, p, n, m), Need(s, ino, p, k, m));
  }

  /** Bytes of one block are on the way to that block. */
  lemma {:induction false} WaysOfChunk(ino: nat, p: nat, n: nat, amount: nat, m: nat, bn: nat, o: nat)
    requires p < m && n + amount <= m && 0 < amount && o + amount <= 512
    requires Advance(p, n, m) == 512 * bn + o && 512 * bn + o + amount <= m
    ensures Ways(ino, p, n + amount, m) == Ways(ino, p, n, m) + Way(ino, bn)
  {
    var q := 512 * bn + o + (amount - 1);
    assert Advance(p, n + amount - 1, m) == q;
    assert q / 512 == bn;
    if amount > 1 { WaysOfChunk(ino, p, n, amount - 1, m, bn, o); }
  }

  /** How many blocks n bytes reach into that begin at offset o of a block. */
  function Reached(o: nat, n: nat): nat {
    (o + n + 511) / 512
  }

  lemma ReachedMore(o: nat, n: nat)
    requires o < 512 && n > 0
    ensures Reached(o, n) == Reached(o, n - 1) + if (o + n - 1) % 512 == 0 then 1 else 0
    ensures n == 1 && o > 0 ==> Reached(o, n - 1) == 1
  {
  }

  lemma OffsetIs(p: nat, n: nat, m: nat)
    requires p < m && n <= m && m % 512 == 0
    ensures Advance(p, n, m) % 512 == (p % 512 + n) % 512
  {
    var a, b := p / 512, m / 512;
    assert p + n == 512 * a + (p % 512 + n) && p + n - m == 512 * (a - b) + (p % 512 + n);
  }

  /** The byte before one that is not at the beginning of a block is in the same block. */
  lemma SameBlock(p: nat, n: nat, m: nat)
    requires p < m && 0 < n <= m && m % 512 == 0 && Advance(p, n, m) % 512 != 0 && n < m
    ensures Advance(p, n, m) / 512 == Advance(p, n - 1, m) / 512
  {
    var q := Advance(p, n, m);
    assert q >= 1 && Advance(p, n - 1, m) == q - 1;
  }

  /** Three free blocks for each block that the bytes reach into are always enough. */
  lemma NeedAtMost(s: Fs, ino: nat, p: nat, n: nat, m: nat)
    requires FsShape(s) && p < m && n <= m && m % 512 == 0
    ensures |Need(s, ino, p, n, m)| <= 3 * Reached(p % 512, n)
  {
    hide At, FsShape, Reached;
    WaysAtMost(ino, p, n, m);
    Fewer(Need(s, ino, p, n, m), Ways(ino, p, n, m));
  }

  lemma {:induction false} WaysAtMost(ino: nat, p: nat, n: nat, m: nat)
    requires p < m && n <= m && m % 512 == 0
    ensures |Ways(ino, p, n, m)| <= 3 * Reached(p % 512, n)
  {
    hide Reached, Advance, Way;
    if n > 0 {
      WaysAtMost(ino, p, n - 1, m);
      OffsetIs(p, n - 1, m);
      ReachedMore(p % 512, n);
      var bn := Advance(p, n - 1, m) / 512;
      Union(Ways(ino, p, n - 1, m), Way(ino, bn));
      if n > 1 && (p % 512 + n - 1) % 512 != 0 {
        SameBlock(p, n - 1, m);
        assert Way(ino, bn) <= Ways(ino, p, n - 1, m);
        assert Ways(ino, p, n, m) == Ways(ino, p, n - 1, m);
      }
      if n == 1 { assert Ways(ino, p, 0, m) == {}; }
    }
  }

  lemma Union(a: set<Loc>, b: set<Loc>)
    ensures |a + b| <= |a| + |b|
  {
    assert a + b == a + (b - a);
    Disjoint(a, b - a);
    Fewer(b - a, b);
  }
}
