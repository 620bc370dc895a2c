/** Single-bit operations on a machine word: `w & (1 << o)`, `w | (1 << o)` and `w & ~(1 << o)`. */
module Bits {
  predicate HasBit(w: nat, o: nat) {
    if o == 0 then w % 2 == 1 else HasBit(w / 2, o - 1)
  }

  function OrBit(w: nat, o: nat): nat {
    if o == 0 then w - w % 2 + 1 else w % 2 + 2 * OrBit(w / 2, o - 1)
  }

  function AndNotBit(w: nat, o: nat): nat {
    if o == 0 then w - w % 2 else w % 2 + 2 * AndNotBit(w / 2, o - 1)
  }

  function Pow2(n: nat): (p: nat)
    ensures p > 0
  {
    if n == 0 then 1 else 2 * Pow2(n - 1)
  }

  lemma {:induction false} OrBitBits(w: nat, o: nat, p: nat)
    ensures HasBit(OrBit(w, o), p) == (p == o || HasBit(w, p))
  {
    if o > 0 && p > 0 {
      OrBitBits(w / 2, o - 1, p - 1);
    }
  }

  lemma {:induction false} AndNotBitBits(w: nat, o: nat, p: nat)
    ensures HasBit(AndNotBit(w, o), p) == (p != o && HasBit(w, p))
  {
    if o > 0 && p > 0 {
      AndNotBitBits(w / 2, o - 1, p - 1);
    }
  }

  lemma {:induction false} WidthKept(w: nat, o: nat, n: nat)
    requires w < Pow2(n) && o < n
    ensures OrBit(w, o) < Pow2(n) && AndNotBit(w, o) < Pow2(n)
  {
    if o > 0 {
      WidthKept(w / 2, o - 1, n - 1);
    }
  }

  lemma {:induction false} ZeroHasNoBit(o: nat)
    ensures !HasBit(0, o)
  {
    if o > 0 {
      ZeroHasNoBit(o - 1);
    }
  }

  lemma {:induction false} OnesHaveAllBits(n: nat, o: nat)
    requires o < n
    ensures HasBit(Pow2(n) - 1, o)
  {
    assert (Pow2(n) - 1) / 2 == Pow2(n - 1) - 1;
    if o > 0 {
      OnesHaveAllBits(n - 1, o - 1);
    }
  }

  lemma {:induction false} AllBitsAreOnes(w: nat, n: nat)
    requires w < Pow2(n)
    requires forall o: nat :: o < n ==> HasBit(w, o)
    ensures w == Pow2(n) - 1
  {
    if n > 0 {
      assert HasBit(w, 0);
      forall o: nat | o < n - 1 ensures HasBit(w / 2, o) {
        assert HasBit(w, o + 1);
      }
      AllBitsAreOnes(w / 2, n - 1);
    }
  }
}

/** fs/bitmap.c: a bitmap kept in an array of bytes. */
module Bitmaps {
  import opened Bytes
  import opened Bits

  const BITS_PER_WORD: nat := 8
  const WORD_ALLBITS: nat := 0xff
  const ENOSPC: int := 28

  predicate BitAt(v: seq<Byte>, i: nat)
    requires i / BITS_PER_WORD < |v|
  {
    HasBit(v[i / BITS_PER_WORD], i % BITS_PER_WORD)
  }

  /** The indices below nbits whose bit is set. */
  ghost function SetBits(v: seq<Byte>, nbits: nat): set<int>
    requires nbits <= |v| * BITS_PER_WORD
  {
    set i | 0 <= i < nbits && BitAt(v, i)
  }

  /** The first n indices. */
  ghost function Upto(n: nat): (s: set<int>)
    ensures forall i :: i in s <==> 0 <= i < n
    ensures |s| == n
  {
    if n == 0 then {} else Upto(n - 1) + {n - 1}
  }

  /** No index below n is free. */
  ghost predicate Full(s: set<int>, n: nat) {
    forall i :: 0 <= i < n ==> i in s
  }

  lemma FullSize(s: set<int>, n: nat)
    requires forall i :: i in s ==> 0 <= i < n
    ensures |s| <= n
    ensures |s| == n <==> Full(s, n)
  {
    SubsetSize(s, Upto(n));
    if Full(s, n) {
      assert s == Upto(n);
    }
  }

  lemma SubsetSize<T>(a: set<T>, b: set<T>)
    requires a <= b
    ensures |a| <= |b|
    ensures |a| == |b| ==> a == b
  {
    assert b == a + (b - a);
    assert |b| == |a| + |b - a|;
  }

  lemma Width(w: Byte, o: nat)
    requires o < BITS_PER_WORD
    ensures OrBit(w, o) < 0x100 && AndNotBit(w, o) < 0x100
  {
    assert Pow2(8) == 0x100 by {
      assert Pow2(4) == 16;
    }
    WidthKept(w, o, 8);
  }

  lemma FullWord(w: Byte)
    requires w == WORD_ALLBITS
    ensures forall o: nat :: o < BITS_PER_WORD ==> HasBit(w, o)
  {
    assert Pow2(8) == 0x100 by {
      assert Pow2(4) == 16;
    }
    forall o: nat | o < BITS_PER_WORD ensures HasBit(w, o) {
      OnesHaveAllBits(8, o);
    }
  }

  lemma OnlyFullWord(w: Byte)
    requires forall o: nat :: o < BITS_PER_WORD ==> HasBit(w, o)
    ensures w == WORD_ALLBITS
  {
    assert Pow2(8) == 0x100 by {
      assert Pow2(4) == 16;
    }
    AllBitsAreOnes(w, 8);
  }

  /** With every word below ix full and the first o bits of word ix set, every bit below them is set. */
  lemma FullBelow(v: seq<Byte>, ix: nat, o: nat)
    requires ix < |v| && o <= BITS_PER_WORD
    requires forall i: nat :: i < ix * BITS_PER_WORD ==> BitAt(v, i)
    requires forall p: nat :: p < o ==> HasBit(v[ix], p)
    ensures forall i: nat :: i < ix * BITS_PER_WORD + o ==> BitAt(v, i)
  {
    forall i: nat | ix * BITS_PER_WORD <= i < ix * BITS_PER_WORD + o ensures BitAt(v, i) {
      assert i / BITS_PER_WORD == ix && i % BITS_PER_WORD == i - ix * BITS_PER_WORD;
    }
  }

  /** Setting one bit of one word sets exactly that bit of the map. */
  lemma SetOne(v: seq<Byte>, w: seq<Byte>, ix: nat, o: nat)
    requires ix < |v| && o < BITS_PER_WORD && OrBit(v[ix], o) < 0x100
    requires w == v[ix := OrBit(v[ix], o)]
    ensures forall i: nat :: i < |v| * BITS_PER_WORD ==> (BitAt(w, i) <==> i == ix * BITS_PER_WORD + o || BitAt(v, i))
  {
    forall i: nat | i < |v| * BITS_PER_WORD ensures BitAt(w, i) <==> i == ix * BITS_PER_WORD + o || BitAt(v, i) {
      OrBitBits(v[ix], o, i % BITS_PER_WORD);
    }
  }

  /** Clearing one bit of one word clears exactly that bit of the map. */
  lemma ClearOne(v: seq<Byte>, w: seq<Byte>, ix: nat, o: nat)
    requires ix < |v| && o < BITS_PER_WORD && AndNotBit(v[ix], o) < 0x100
    requires w == v[ix := AndNotBit(v[ix], o)]
    ensures forall i: nat :: i < |v| * BITS_PER_WORD ==> (BitAt(w, i) <==> i != ix * BITS_PER_WORD + o && BitAt(v, i))
  {
    forall i: nat | i < |v| * BITS_PER_WORD ensures BitAt(w, i) <==> i != ix * BITS_PER_WORD + o && BitAt(v, i) {
      AndNotBitBits(v[ix], o, i % BITS_PER_WORD);
    }
  }

  lemma AllBelow(s: set<int>, n: nat)
    requires forall i :: i in s ==> 0 <= i < n
    ensures s * Upto(n) == s
  {
  }

  lemma OneMore(s: set<int>, i: nat)
    ensures |s * Upto(i + 1)| == |s * Upto(i)| + (if i in s then 1 else 0)
  {
    if i in s {
      assert s * Upto(i + 1) == s * Upto(i) + {i};
    } else {
      assert s * Upto(i + 1) == s * Upto(i);
    }
  }

  class Bitmap {
    const nbits: nat
    const v: array<Byte>
    /** The indices whose bit is set. */
    ghost var bits: set<int>

    /** The words cover nbits and show exactly the set bits; the leftover bits of the last word read as in use. */
    ghost predicate Valid()
      reads this, v
    {
      v.Length == (nbits + BITS_PER_WORD - 1) / BITS_PER_WORD &&
      (forall i: nat {:trigger BitAt(v[..], i)} :: i < v.Length * BITS_PER_WORD ==>
         (BitAt(v[..], i) <==> i in bits || nbits <= i)) &&
      forall i :: i in bits ==> 0 <= i < nbits
    }

    /** bitmap_create */
    constructor (nbits: nat)
      ensures Valid() && fresh(v) && this.nbits == nbits && bits == {}
    {
      this.nbits := nbits;
      var words := (nbits + BITS_PER_WORD - 1) / BITS_PER_WORD;
      v := new Byte[words](_ => 0);
      bits := {};
      new;
      ghost var zero := v[..];
      forall i: nat | i < words * BITS_PER_WORD ensures !BitAt(zero, i) {
        ZeroHasNoBit(i % BITS_PER_WORD);
      }
      if nbits / BITS_PER_WORD < words {
        var ix := words - 1;
        var overbits := nbits - ix * BITS_PER_WORD;
        var j := overbits;
        while j < BITS_PER_WORD
          invariant overbits <= j <= BITS_PER_WORD && bits == {}
          invariant forall i: nat :: i < words * BITS_PER_WORD ==>
                      (BitAt(v[..], i) <==> nbits <= i < ix * BITS_PER_WORD + j)
        {
          Width(v[ix], j);
          ghost var before := v[..];
          v[ix] := OrBit(v[ix], j);
          SetOne(before, v[..], ix, j);
          j := j + 1;
        }
      }
    }

    /** bitmap_alloc: takes the least clear bit, if there is one. */
    method Alloc() returns (ret: int, index: nat)
      requires Valid()
      modifies this`bits, v
      ensures Valid()
      ensures ret == 0 || ret == -ENOSPC
      ensures ret == 0 <==> !Full(old(bits), nbits)
      ensures ret == 0 ==> index < nbits && index !in old(bits) && Full(old(bits), index) && bits == old(bits) + {index}
      ensures ret == 0 ==> forall k :: 0 <= k < v.Length && k != index / BITS_PER_WORD ==> v[k] == old(v[k])
      ensures ret != 0 ==> v[..] == old(v[..]) && bits == old(bits)
    {
      index := 0;
      ghost var v0 := v[..];
      var maxix := (nbits + BITS_PER_WORD - 1) / BITS_PER_WORD;
      var ix := 0;
      while ix < maxix
        invariant ix <= maxix && v[..] == v0 && bits == old(bits)
        invariant forall i: nat :: i < ix * BITS_PER_WORD ==> BitAt(v0, i)
      {
        if v[ix] != WORD_ALLBITS {
          var offset := 0;
          while offset < BITS_PER_WORD
            invariant offset <= BITS_PER_WORD && v[..] == v0 && bits == old(bits)
            invariant forall o: nat :: o < offset ==> HasBit(v0[ix], o)
          {
            if !HasBit(v[ix], offset) {
              Width(v[ix], offset);
              FullBelow(v0, ix, offset);
              v[ix] := OrBit(v[ix], offset);
              index := ix * BITS_PER_WORD + offset;
              assert !BitAt(v0, index);
              assert index < nbits;
              bits := bits + {index};
              SetOne(v0, v[..], ix, offset);
              assert Full(old(bits), index) by {
                forall i | 0 <= i < index ensures i in old(bits) {
                  assert BitAt(v0, i);
                }
              }
              return 0, index;
            }
            offset := offset + 1;
          }
          OnlyFullWord(v0[ix]);
          assert false;
        }
        FullWord(v0[ix]);
        FullBelow(v0, ix, BITS_PER_WORD);
        ix := ix + 1;
      }
      forall i | 0 <= i < nbits ensures i in bits {
        assert BitAt(v0, i);
      }
      return -ENOSPC, 0;
    }

    /** bitmap_mark */
    method Mark(index: nat)
      requires Valid() && index < nbits && index !in bits
      modifies this`bits, v
      ensures Valid() && bits == old(bits) + {index}
      ensures forall k :: 0 <= k < v.Length && k != index / BITS_PER_WORD ==> v[k] == old(v[k])
    {
      var ix, offset := index / BITS_PER_WORD, index % BITS_PER_WORD;
      Width(v[ix], offset);
      v[ix] := OrBit(v[ix], offset);
      bits := bits + {index};
      SetOne(old(v[..]), v[..], ix, offset);
    }

    /** bitmap_unmark */
    method Unmark(index: nat)
      requires Valid() && index < nbits && index in bits
      modifies this`bits, v
      ensures Valid() && bits == old(bits) - {index}
      ensures forall k :: 0 <= k < v.Length && k != index / BITS_PER_WORD ==> v[k] == old(v[k])
    {
      var ix, offset := index / BITS_PER_WORD, index % BITS_PER_WORD;
      Width(v[ix], offset);
      v[ix] := AndNotBit(v[ix], offset);
      bits := bits - {index};
      ClearOne(old(v[..]), v[..], ix, offset);
    }

    /** bitmap_isset */
    method IsSet(index: nat) returns (b: bool)
      requires Valid() && index < nbits
      ensures b <==> index in bits
    {
      assert BitAt(v[..], index) <==> index in bits;
      b := HasBit(v[index / BITS_PER_WORD], index % BITS_PER_WORD);
    }

    /** bitmap_nr_allocated */
    method NrAllocated() returns (nr: nat)
      requires Valid()
      ensures nr == |bits|
    {
      AllBelow(bits, nbits);
      hide Bitmap.Valid;
      hide Upto;
      nr := 0;
      var i := 0;
      assert bits * Upto(0) == {};
      while i < nbits
        invariant i <= nbits
        invariant nr == |bits * Upto(i)|
      {
        OneMore(bits, i);
        var b := IsSet(i);
        if b {
          nr := nr + 1;
        }
        i := i + 1;
      }
    }

    lemma BitsAreSetBits()
      requires Valid()
      ensures bits == SetBits(v[..], nbits)
    {
      forall i | 0 <= i < nbits ensures i in bits <==> i in SetBits(v[..], nbits) {
        assert BitAt(v[..], i) <==> i in bits;
      }
    }

    /** The words are overwritten through bitmap_getdata, by reading a freemap back from the device. */
    method Load(w: seq<Byte>)
      requires Valid() && |w| == v.Length && nbits == |w| * BITS_PER_WORD
      modifies this`bits, v
      ensures Valid() && v[..] == w && bits == SetBits(w, nbits)
    {
      forall j | 0 <= j < v.Length {
        v[j] := w[j];
      }
      assert v[..] == w;
      bits := SetBits(w, nbits);
    }
  }
}
