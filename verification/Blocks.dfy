/** Disk blocks: 512 bytes, also read as 256 little-endian 16-bit words (the Z280's
    `int` and `blkno_t`). Indirect blocks and free-list chunks live in the same
    storage as file data, so both readings of one block are needed. */
module Blocks {

  const WORDS_PER_BLOCK := 256

  type Byte = x: nat | x < 256
  type Block = s: seq<Byte> | |s| == 512 witness seq(512, _ => 0)

  function ZeroBlock(): (b: Block)
    ensures forall i :: 0 <= i < 512 ==> b[i] == 0
  {
    seq<Byte>(512, _ => 0)
  }

  /** The 16-bit word number i of a block. */
  function Word(b: Block, i: nat): (w: nat)
    requires i < WORDS_PER_BLOCK
    ensures w < 65536
  {
    var lo: nat, hi: nat := b[2 * i], b[2 * i + 1];
    lo + 256 * hi
  }

  /** Words [from, from + n) of a block. */
  function Words(b: Block, from: nat, n: nat): (ws: seq<nat>)
    requires from + n <= WORDS_PER_BLOCK
    ensures |ws| == n
    ensures forall i :: 0 <= i < n ==> ws[i] == Word(b, from + i)
  {
    seq<nat>(n, i requires 0 <= i < n => Word(b, from + i))
  }

  predicate AreWords(ws: seq<nat>) {
    forall i :: 0 <= i < |ws| ==> ws[i] < 65536
  }

  /** Byte i of a block after the words ws were stored, low byte first, at word index at. */
  function ByteAfterPut(b: Block, at: nat, ws: seq<nat>, i: nat): Byte
    requires at + |ws| <= WORDS_PER_BLOCK && AreWords(ws) && i < 512
  {
    if 2 * at <= i < 2 * (at + |ws|) then
      var w := ws[i / 2 - at];
      if i % 2 == 0 then w % 256 else w / 256
    else
      b[i]
  }

  /** Stores the words ws into a block from word index at (`bcopy` of a word array). */
  function PutWords(b: Block, at: nat, ws: seq<nat>): (r: Block)
    requires at + |ws| <= WORDS_PER_BLOCK && AreWords(ws)
  {
    seq<Byte>(512, i requires 0 <= i < 512 => ByteAfterPut(b, at, ws, i))
  }

  /** Reading back the words of a block after some were stored: the stored ones are
      what was stored and the others are untouched. */
  lemma WordAfterPut(b: Block, at: nat, ws: seq<nat>, i: nat)
    requires at + |ws| <= WORDS_PER_BLOCK && AreWords(ws) && i < WORDS_PER_BLOCK
    ensures Word(PutWords(b, at, ws), i) == if at <= i < at + |ws| then ws[i - at] else Word(b, i)
  {
    var r := PutWords(b, at, ws);
    assert r[2 * i] == ByteAfterPut(b, at, ws, 2 * i);
    assert r[2 * i + 1] == ByteAfterPut(b, at, ws, 2 * i + 1);
  }

  lemma WordsAfterPut(b: Block, at: nat, ws: seq<nat>)
    requires at + |ws| <= WORDS_PER_BLOCK && AreWords(ws)
    ensures forall i :: 0 <= i < 256 ==>
      Word(PutWords(b, at, ws), i) == if at <= i < at + |ws| then ws[i - at] else Word(b, i)
  {
    forall i | 0 <= i < 256
      ensures Word(PutWords(b, at, ws), i) == if at <= i < at + |ws| then ws[i - at] else Word(b, i)
    {
      WordAfterPut(b, at, ws, i);
    }
  }

  /** Copies data over the bytes [at, at + |data|) of a block (`bcopy`, `uget`). */
  function PutBytes(b: Block, at: nat, data: seq<Byte>): (r: Block)
    requires at + |data| <= 512
    ensures forall i :: 0 <= i < 512 ==> r[i] == if at <= i < at + |data| then data[i - at] else b[i]
  {
    seq<Byte>(512, i requires 0 <= i < 512 => if at <= i < at + |data| then data[i - at] else b[i])
  }
}
