/** Bytes, device blocks, and the 32-bit little-endian words laid out in them. */
module Bytes {
  type Byte = x: int | 0 <= x < 0x100

  const BLOCK_SIZE: nat := 8192

  type Block = b: seq<Byte> | |b| == BLOCK_SIZE witness seq(BLOCK_SIZE, _ => 0)

  /** `bzero(block, BLOCK_SIZE)` */
  function ZeroBlock(): (b: Block)
    ensures forall i :: 0 <= i < BLOCK_SIZE ==> b[i] == 0
  {
    seq(BLOCK_SIZE, _ => 0)
  }

  predicate IsS32(v: int) {
    -0x8000_0000 <= v < 0x8000_0000
  }

  /** Byte number j, least significant first, of the two's complement representation of v. */
  function ByteOf(v: int, j: nat): Byte
    decreases j
  {
    if j == 0 then v % 0x100 else ByteOf(v / 0x100, j - 1)
  }

  /** The unsigned value of the four bytes at 4 * k. */
  function UWord(b: seq<Byte>, k: nat): (u: int)
    requires 4 * k + 4 <= |b|
    ensures 0 <= u < 0x1_0000_0000
  {
    var b0: int, b1: int, b2: int, b3: int := b[4 * k], b[4 * k + 1], b[4 * k + 2], b[4 * k + 3];
    b0 + 0x100 * (b1 + 0x100 * (b2 + 0x100 * b3))
  }

  /** The same four bytes read as a C `int`. */
  function Word(b: seq<Byte>, k: nat): (w: int)
    requires 4 * k + 4 <= |b|
    ensures IsS32(w)
  {
    var u := UWord(b, k);
    if u < 0x8000_0000 then u else u - 0x1_0000_0000
  }

  /** The assignment `((int *) b)[k] = v`. */
  function PutWord(b: seq<Byte>, k: nat, v: int): (r: seq<Byte>)
    requires 4 * k + 4 <= |b|
    ensures |r| == |b|
  {
    b[4 * k := ByteOf(v, 0)][4 * k + 1 := ByteOf(v, 1)][4 * k + 2 := ByteOf(v, 2)][4 * k + 3 := ByteOf(v, 3)]
  }

  /** A record of words, laid out one after the other. */
  function EncodeWords(ws: seq<int>): (b: seq<Byte>)
    ensures |b| == 4 * |ws|
  {
    seq(4 * |ws|, i requires 0 <= i < 4 * |ws| => ByteOf(ws[i / 4], i % 4))
  }

  lemma BytesOfWord(v: int)
    ensures ByteOf(v, 0) + 0x100 * (ByteOf(v, 1) + 0x100 * (ByteOf(v, 2) + 0x100 * ByteOf(v, 3))) == v % 0x1_0000_0000
  {
    var v1 := v / 0x100;
    var v2 := v1 / 0x100;
    var v3 := v2 / 0x100;
    assert ByteOf(v, 1) == ByteOf(v1, 0);
    assert ByteOf(v, 2) == ByteOf(v1, 1) == ByteOf(v2, 0);
    assert ByteOf(v, 3) == ByteOf(v1, 2) == ByteOf(v2, 1) == ByteOf(v3, 0);
    assert v == v % 0x100 + 0x100 * (v1 % 0x100 + 0x100 * (v2 % 0x100 + 0x100 * v3));
    ModWord(v % 0x100, v1 % 0x100, v2 % 0x100, v3);
  }

  lemma ModWord(a: int, b: int, c: int, d: int)
    requires 0 <= a < 0x100 && 0 <= b < 0x100 && 0 <= c < 0x100
    ensures (a + 0x100 * (b + 0x100 * (c + 0x100 * d))) % 0x1_0000_0000 ==
            a + 0x100 * (b + 0x100 * (c + 0x100 * (d % 0x100)))
  {
    var lo := a + 0x100 * (b + 0x100 * (c + 0x100 * (d % 0x100)));
    assert a + 0x100 * (b + 0x100 * (c + 0x100 * d)) == lo + 0x1_0000_0000 * (d / 0x100);
  }

  /** Block b' holds the words of b, except that word k is v. */
  ghost predicate IsPut(b: Block, k: nat, v: int, b': Block) {
    forall j: nat :: 4 * j + 4 <= BLOCK_SIZE ==> Word(b', j) == if j == k then v else Word(b, j)
  }

  ghost predicate SameWords(b: Block, b': Block) {
    forall j: nat :: 4 * j + 4 <= BLOCK_SIZE ==> Word(b', j) == Word(b, j)
  }

  lemma PutWordIsPut(b: Block, k: nat, v: int)
    requires 4 * k + 4 <= BLOCK_SIZE && IsS32(v)
    ensures IsPut(b, k, v, PutWord(b, k, v))
  {
    forall j: nat | 4 * j + 4 <= BLOCK_SIZE ensures Word(PutWord(b, k, v), j) == if j == k then v else Word(b, j) {
      PutWordThenWord(b, k, v, j);
    }
  }

  lemma PutWordThenWord(b: seq<Byte>, k: nat, v: int, j: nat)
    requires 4 * k + 4 <= |b| && 4 * j + 4 <= |b| && IsS32(v)
    ensures Word(PutWord(b, k, v), j) == if j == k then v else Word(b, j)
  {
    if j == k {
      BytesOfWord(v);
    }
  }

  lemma EncodedByte(ws: seq<int>, k: nat, j: nat)
    requires k < |ws| && j < 4
    ensures EncodeWords(ws)[4 * k + j] == ByteOf(ws[k], j)
  {
    assert (4 * k + j) / 4 == k && (4 * k + j) % 4 == j;
  }

  lemma EncodeThenWord(ws: seq<int>, k: nat)
    requires k < |ws|
    ensures UWord(EncodeWords(ws), k) == ws[k] % 0x1_0000_0000
    ensures IsS32(ws[k]) ==> Word(EncodeWords(ws), k) == ws[k]
  {
    hide EncodeWords;
    hide ByteOf;
    EncodedByte(ws, k, 0);
    EncodedByte(ws, k, 1);
    EncodedByte(ws, k, 2);
    EncodedByte(ws, k, 3);
    BytesOfWord(ws[k]);
  }

  lemma ZeroWord(b: seq<Byte>, k: nat)
    requires 4 * k + 4 <= |b| && forall i :: 0 <= i < |b| ==> b[i] == 0
    ensures Word(b, k) == 0
  {
  }
}
