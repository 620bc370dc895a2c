/** What reading, writing and freeing a file come to: a sparse byte array, and an exact account of its blocks. */
module FileTheorems {
  import opened Bytes
  import opened Bitmaps
  import opened Super
  import opened BlockMap
  import opened ReadWrite
  import opened FileData
  import opened FreeBlocks

  // ---- Reading holes ----

  /** Some second-level table is there. */
  ghost predicate HasTable(s: State) {
    exists p: nat :: p < NR_INDIRECT_BLOCKS && Ptr(s.disk, s.din, Table(p)) != 0
  }

  lemma ZeroWordsZeroBytes(b: Block)
    requires forall k: nat :: k < NR_INDIRECT_BLOCKS ==> Word(b, k) == 0
    ensures b == ZeroBlock()
  {
    forall j | 0 <= j < BLOCK_SIZE ensures b[j] == 0 {
      assert Word(b, j / 4) == 0;
      assert j % 4 == 0 || j % 4 == 1 || j % 4 == 2 || j % 4 == 3;
    }
  }

  lemma TopBlockZero(s: State)
    requires s.Sound() && s.din.iDindirect > 0
    ensures 0 < s.din.iDindirect < |s.disk|
    ensures s.disk[s.din.iDindirect] == ZeroBlock() <==> !HasTable(s)
  {
    assert Ptr(s.disk, s.din, Double) in s.own;
    var b := s.disk[s.din.iDindirect];
    forall p: nat | p < NR_INDIRECT_BLOCKS ensures Word(b, p) == Ptr(s.disk, s.din, Table(p)) {
    }
    if HasTable(s) {
      var p: nat :| p < NR_INDIRECT_BLOCKS && Ptr(s.disk, s.din, Table(p)) != 0;
      ZeroWord(ZeroBlock(), p);
    } else {
      forall k: nat | k < NR_INDIRECT_BLOCKS ensures Word(b, k) == 0 {
        assert Ptr(s.disk, s.din, Table(k)) == 0;
      }
      ZeroWordsZeroBytes(b);
    }
  }

  /** testfs_read_block delivers the contents of block n, except for exactly these holes: those whose second-level
      table is missing, in a file that has another second-level table. Of these it delivers the double indirect
      block. */
  lemma ReadFaithful(s: State, n: nat)
    requires s.Sound() && n < MAX_FILE_BLOCKS
    ensures ReadBuffer(s.disk, s.din, n) == BlockBytes(s.disk, s.din, n) <==>
              !(MissingTable(s.disk, s.din, n) && HasTable(s))
  {
    if MissingTable(s.disk, s.din, n) {
      TopBlockZero(s);
      assert Ptr(s.disk, s.din, SlotOf(n).Parent()) == 0;
    }
  }

  /** A range of the file in which no hole is of that kind reads as the byte array that it is. */
  lemma ReadsAsArray(s: State, was: seq<Byte>, now: seq<Byte>, start: nat, n: nat)
    requires start + n <= MAX_FILE_SIZE && Copied(s, was, now, start, n)
    requires forall k :: start / BLOCK_SIZE <= k && k * BLOCK_SIZE < start + n ==> !MissingTable(s.disk, s.din, k)
    ensures forall j :: 0 <= j < n ==> now[j] == ByteAt(s, start + j)
  {
    forall j | 0 <= j < n ensures now[j] == ByteAt(s, start + j) {
      assert !MissingTable(s.disk, s.din, (start + j) / BLOCK_SIZE);
    }
  }

  // ---- Writing ----

  /** The bytes of buf are in place, and every other byte of the file, within its size or not, is as it was. */
  ghost predicate ArrayWritten(s: State, buf: seq<Byte>, start: nat, t: State) {
    forall off :: 0 <= off < MAX_FILE_SIZE ==>
      ByteAt(t, off) == if start <= off < start + |buf| then buf[off - start] else ByteAt(s, off)
  }

  /** The first block lacks its second-level table, and outside the range, the double indirect block, which is read
      for it, has a byte that is not 0. */
  predicate HeadSpoiled(s: State, size: nat, start: nat) {
    MissingTable(s.disk, s.din, start / BLOCK_SIZE) &&
    exists j :: 0 <= j < BLOCK_SIZE && OutsideHead(size, start, j) &&
      ReadBuffer(s.disk, s.din, start / BLOCK_SIZE)[j] != 0
  }

  /** Byte j of the first block is not one of the bytes written. */
  predicate OutsideHead(size: nat, start: nat, j: int) {
    !(start % BLOCK_SIZE <= j < start % BLOCK_SIZE + size)
  }

  /** When a write of several blocks comes to its last one, k, that one lacks its second-level table, and there is a
      table whose entry in the double indirect block, which is read for it, is not overwritten as a whole. */
  predicate TailSpoiled(s: State, size: nat, start: nat, k: nat) {
    start / BLOCK_SIZE < k && LateTable(s, k) &&
    exists p: nat :: p < NR_INDIRECT_BLOCKS && k * BLOCK_SIZE + 4 * p + 4 > start + size &&
                     (Ptr(s.disk, s.din, Table(p)) != 0 || InSpan(Table(p), start / BLOCK_SIZE, k))
  }

  /** Some byte of the last block, past the range, was read as something else than 0, although the block is a hole. */
  predicate TailChanged(s: State, size: nat, start: nat, k: nat, tail: Block) {
    start / BLOCK_SIZE < k && LateTable(s, k) && exists j ::
      0 <= j < BLOCK_SIZE && k * BLOCK_SIZE + j >= start + size && tail[j] != 0
  }

  lemma HoleReadsZero(s: State, n: nat)
    requires s.Sound() && n < MAX_FILE_BLOCKS && (MissingTable(s.disk, s.din, n) || LateTable(s, n))
    ensures BlockBytes(s.disk, s.din, n) == ZeroBlock()
  {
    if n >= DOUBLE_START {
      var p := SlotOf(n).p;
      assert Ptr(s.disk, s.din, Table(p)) == 0;
    }
  }

  /** A successful write changes exactly the bytes of its range if and only if neither end is spoiled. */
  lemma WritesExact(s: State, buf: seq<Byte>, start: nat, k: nat, tail: Block, t: State)
    requires s.Sound() && Done(s, buf, start, k, tail, t) && k == LastBlock(start, |buf|)
    requires k > start / BLOCK_SIZE ==> TailKept(s, start / BLOCK_SIZE, k, tail)
    ensures ArrayWritten(s, buf, start, t) <==> !HeadSpoiled(s, |buf|, start) && !TailChanged(s, |buf|, start, k, tail)
  {
    if ArrayWritten(s, buf, start, t) {
      HeadRight(s, buf, start, k, tail, t);
      TailRight(s, buf, start, k, tail, t);
    } else if !HeadSpoiled(s, |buf|, start) && !TailChanged(s, |buf|, start, k, tail) {
      WritesAsArray(s, buf, start, k, tail, t);
    }
  }

  lemma HeadRight(s: State, buf: seq<Byte>, start: nat, k: nat, tail: Block, t: State)
    requires s.Sound() && Done(s, buf, start, k, tail, t) && ArrayWritten(s, buf, start, t)
    ensures !HeadSpoiled(s, |buf|, start)
  {
    var first := start / BLOCK_SIZE;
    if MissingTable(s.disk, s.din, first) {
      HoleReadsZero(s, first);
      forall j | 0 <= j < BLOCK_SIZE && OutsideHead(|buf|, start, j) ensures ReadBuffer(s.disk, s.din, first)[j] == 0 {
        InBlock(first * BLOCK_SIZE + j, first, j);
        assert ByteAt(t, first * BLOCK_SIZE + j) == BufferAt(s, first * BLOCK_SIZE + j);
        assert ByteAt(t, first * BLOCK_SIZE + j) == ByteAt(s, first * BLOCK_SIZE + j);
      }
    }
  }

  lemma TailRight(s: State, buf: seq<Byte>, start: nat, k: nat, tail: Block, t: State)
    requires s.Sound() && Done(s, buf, start, k, tail, t) && ArrayWritten(s, buf, start, t)
    ensures !TailChanged(s, |buf|, start, k, tail)
  {
    if start / BLOCK_SIZE < k && LateTable(s, k) {
      HoleReadsZero(s, k);
      forall j | 0 <= j < BLOCK_SIZE && k * BLOCK_SIZE + j >= start + |buf| ensures tail[j] == 0 {
        InBlock(k * BLOCK_SIZE + j, k, j);
        assert ByteAt(t, k * BLOCK_SIZE + j) == tail[j];
        assert ByteAt(t, k * BLOCK_SIZE + j) == ByteAt(s, k * BLOCK_SIZE + j);
      }
    }
  }

  /** A successful write changes exactly the bytes of its range, and no other byte of the file, if neither end is
      spoiled. */
  lemma WritesAsArray(s: State, buf: seq<Byte>, start: nat, k: nat, tail: Block, t: State)
    requires s.Sound() && Done(s, buf, start, k, tail, t) && k == LastBlock(start, |buf|)
    requires k > start / BLOCK_SIZE ==> TailKept(s, start / BLOCK_SIZE, k, tail)
    requires !HeadSpoiled(s, |buf|, start) && !TailChanged(s, |buf|, start, k, tail)
    ensures ArrayWritten(s, buf, start, t)
  {
    forall off | 0 <= off < MAX_FILE_SIZE
      ensures ByteAt(t, off) == if start <= off < start + |buf| then buf[off - start] else ByteAt(s, off)
    {
      var m, j := off / BLOCK_SIZE, off % BLOCK_SIZE;
      if !(start <= off < start + |buf|) {
        if m == start / BLOCK_SIZE {
          assert OutsideHead(|buf|, start, j);
          if MissingTable(s.disk, s.din, m) {
            HoleReadsZero(s, m);
          }
        } else if m == k {
          if LateTable(s, k) {
            HoleReadsZero(s, k);
          }
        }
      }
    }
  }

  lemma ZeroBytes(b: Block, p: nat)
    requires p < NR_INDIRECT_BLOCKS
    ensures Word(b, p) == 0 <==> forall j :: 4 * p <= j < 4 * p + 4 ==> b[j] == 0
  {
    assert Word(b, p) == 0 ==> b[4 * p] == 0 && b[4 * p + 1] == 0 && b[4 * p + 2] == 0 && b[4 * p + 3] == 0;
  }

  lemma ChangedIsSpoiled(s: State, size: nat, start: nat, k: nat, tail: Block)
    requires start / BLOCK_SIZE < k && TailKept(s, start / BLOCK_SIZE, k, tail) && TailChanged(s, size, start, k, tail)
    ensures TailSpoiled(s, size, start, k)
  {
    hide InSpan;
    hide LateTable;
    hide BlockBytes;
    var j :| 0 <= j < BLOCK_SIZE && k * BLOCK_SIZE + j >= start + size && tail[j] != 0;
    ZeroBytes(tail, j / 4);
    assert Word(tail, j / 4) != 0;
  }

  lemma SpoiledIsChanged(s: State, size: nat, start: nat, k: nat, tail: Block)
    requires start / BLOCK_SIZE < k && TailKept(s, start / BLOCK_SIZE, k, tail) && TailSpoiled(s, size, start, k) &&
             (start + size) % 4 == 0
    ensures TailChanged(s, size, start, k, tail)
  {
    hide InSpan;
    hide LateTable;
    hide BlockBytes;
    var p: nat :| p < NR_INDIRECT_BLOCKS && k * BLOCK_SIZE + 4 * p + 4 > start + size &&
                  (Ptr(s.disk, s.din, Table(p)) != 0 || InSpan(Table(p), start / BLOCK_SIZE, k));
    assert Word(tail, p) != 0;
    ZeroBytes(tail, p);
  }

  /** Before the write, a caller can see that its end will not be spoiled; for an end at a multiple of 4, this is
      exact. */
  lemma TailForeseen(s: State, size: nat, start: nat, k: nat, tail: Block)
    requires k == LastBlock(start, size) && (k > start / BLOCK_SIZE ==> TailKept(s, start / BLOCK_SIZE, k, tail))
    ensures TailChanged(s, size, start, k, tail) ==> TailSpoiled(s, size, start, k)
    ensures (start + size) % 4 == 0 ==> (TailChanged(s, size, start, k, tail) <==> TailSpoiled(s, size, start, k))
  {
    hide InSpan;
    hide LateTable;
    hide BlockBytes;
    if TailChanged(s, size, start, k, tail) {
      ChangedIsSpoiled(s, size, start, k, tail);
    } else if (start + size) % 4 == 0 && TailSpoiled(s, size, start, k) {
      SpoiledIsChanged(s, size, start, k, tail);
    }
  }

  /** For a write whose end is a multiple of 4, the exception is exact in what the caller can see before. */
  lemma AlignedWritesExact(s: State, buf: seq<Byte>, start: nat, k: nat, tail: Block, t: State)
    requires s.Sound() && Done(s, buf, start, k, tail, t) && k == LastBlock(start, |buf|) && (start + |buf|) % 4 == 0
    requires k > start / BLOCK_SIZE ==> TailKept(s, start / BLOCK_SIZE, k, tail)
    ensures ArrayWritten(s, buf, start, t) <==> !HeadSpoiled(s, |buf|, start) && !TailSpoiled(s, |buf|, start, k)
  {
    hide HeadSpoiled;
    hide TailSpoiled;
    hide TailChanged;
    hide ArrayWritten;
    hide Done;
    hide TailKept;
    WritesExact(s, buf, start, k, tail, t);
    TailForeseen(s, |buf|, start, k, tail);
  }

  /** For a write within one block the exception is exact: the bytes around it change if and only if the second-level
      table is missing and the double indirect block is not zero at one of their places. */
  lemma ShortWriteExact(s: State, buf: seq<Byte>, start: nat, tail: Block, t: State)
    requires s.Sound() && Done(s, buf, start, start / BLOCK_SIZE, tail, t) && start % BLOCK_SIZE + |buf| <= BLOCK_SIZE
    ensures ArrayWritten(s, buf, start, t) <==>
            !(MissingTable(s.disk, s.din, start / BLOCK_SIZE) &&
              exists j :: 0 <= j < BLOCK_SIZE && !(start % BLOCK_SIZE <= j < start % BLOCK_SIZE + |buf|) &&
                          0 < s.din.iDindirect < |s.disk| && s.disk[s.din.iDindirect][j] != 0)
  {
    var first, at := start / BLOCK_SIZE, start % BLOCK_SIZE;
    if MissingTable(s.disk, s.din, first) {
      assert Ptr(s.disk, s.din, Double) in s.own;
      assert Ptr(s.disk, s.din, SlotOf(first).Parent()) == 0;
      assert BlockBytes(s.disk, s.din, first) == ZeroBlock();
      if j :| 0 <= j < BLOCK_SIZE && !(at <= j < at + |buf|) && s.disk[s.din.iDindirect][j] != 0 {
        InBlock(first * BLOCK_SIZE + j, first, j);
        assert ByteAt(t, first * BLOCK_SIZE + j) == BufferAt(s, first * BLOCK_SIZE + j);
        assert BufferAt(s, first * BLOCK_SIZE + j) != ByteAt(s, first * BLOCK_SIZE + j);
      }
    }
    if !(MissingTable(s.disk, s.din, first) &&
         exists j :: 0 <= j < BLOCK_SIZE && !(at <= j < at + |buf|) && 0 < s.din.iDindirect < |s.disk| &&
           s.disk[s.din.iDindirect][j] != 0) {
      forall off | 0 <= off < MAX_FILE_SIZE
        ensures ByteAt(t, off) == if start <= off < start + |buf| then buf[off - start] else ByteAt(s, off)
      {
        if off / BLOCK_SIZE == first && !(start <= off < start + |buf|) {
          var j := off % BLOCK_SIZE;
          assert !(at <= j < at + |buf|);
        }
      }
    }
  }

  // ---- The account of the blocks ----

  lemma SoundNotDangling(s: State)
    requires s.Sound()
    ensures !Dangling(s.disk, s.din, s.used)
  {
    forall r: Slot | r.Valid() && Ptr(s.disk, s.din, r) > 0 ensures Ptr(s.disk, s.din, r) in s.used {
      OwnedPointer(s, r);
    }
  }

  /** An allocation for a hole leaves a pointer to a free block behind exactly when there is some room, but not
      enough. */
  lemma AllocationExact(s: State, n: nat, ret: int, t: State)
    requires s.Sound() && n < MAX_FILE_BLOCKS && Allocated(s, n, ret, t)
    ensures ret < 0 <==> Room(s.sb) < Need(s.disk, s.din, n)
    ensures ret < 0 ==> t.used == s.used && t.sb == s.sb && t.din.blockCount == s.din.blockCount
    ensures Dangling(t.disk, t.din, t.used) <==> 0 < Room(s.sb) < Need(s.disk, s.din, n)
  {
    SoundNotDangling(s);
    if ret > 0 {
      SoundNotDangling(t);
    }
  }

  /** Every mapped block lies within the file size, as testfs_free_blocks expects. */
  ghost predicate Filled(s: State) {
    (forall b :: b in s.own ==> Covered(s.own[b], BlocksOf(s.din.iSize))) &&
    (BlocksOf(s.din.iSize) > DOUBLE_START ==> s.din.iDindirect > 0)
  }

  lemma SpanCovered(s: Slot, first: nat, last: nat, e: int)
    requires s.Valid() && InSpan(s, first, last) && last <= e
    ensures Covered(s, e)
  {
  }

  lemma CoveredGrows(s: Slot, e: int, e': int)
    requires Covered(s, e) && e <= e'
    ensures Covered(s, e')
  {
  }

  /** A successful write of at least one byte keeps every mapped block within the file size. */
  lemma WriteKeepsFilled(s: State, buf: seq<Byte>, start: nat, k: nat, tail: Block, t: State)
    requires s.Sound() && Filled(s) && Done(s, buf, start, k, tail, t) && |buf| > 0 && s.din.iSize >= 0
    requires k * BLOCK_SIZE < start + |buf| <= (k + 1) * BLOCK_SIZE
    requires t.din.iSize == if start + |buf| > s.din.iSize then start + |buf| else s.din.iSize
    ensures Filled(t)
  {
    var e, e' := BlocksOf(s.din.iSize), BlocksOf(t.din.iSize);
    assert e <= e' && k + 1 <= e';
    forall b | b in t.own ensures Covered(t.own[b], e') {
      if b in s.own {
        CoveredGrows(s.own[b], e, e');
      } else {
        SpanCovered(t.own[b], start / BLOCK_SIZE, k + 1, e');
      }
    }
    OwnedPointer(t, Double);
    OwnedPointer(s, Double);
    if e' > DOUBLE_START {
      if e' == e {
        assert t.own[s.din.iDindirect] == Double;
      } else {
        assert PhysicalBlock(t.disk, t.din, k) != 0;
      }
    }
  }

  /** What testfs_write_data ensures when it fails at block k: only a failure at the last of several blocks changes
      the size. */
  ghost predicate Stopped(s: State, buf: seq<Byte>, start: nat, k: nat, t: State) {
    k <= LastBlock(start, |buf|) && Partly(s, buf, start, k, t) &&
    t.din.iSize == if start / BLOCK_SIZE < k == LastBlock(start, |buf|) then MAX_FILE_SIZE else s.din.iSize
  }

  /** A write that fails at block k leaves the file in order: either the file would be too big, or nothing at all was
      left for block k; and the blocks that were mapped lie within the file size, which a failure at the last of
      several blocks makes the maximum, so that then the double indirect block has to be there. */
  predicate KeepsOrder(s: State, size: nat, start: nat, k: nat) {
    var first := start / BLOCK_SIZE;
    (k >= MAX_FILE_BLOCKS || Room(s.sb) <= NeedSpan(s, first, k)) &&
    if first < k == LastBlock(start, size) then s.din.iDindirect > 0 || k > DOUBLE_START
    else k == first || k <= BlocksOf(s.din.iSize)
  }

  /** A failed write stopped where the state before it says. */
  lemma StoppedWhere(s: State, buf: seq<Byte>, start: nat, k: nat, t: State)
    requires Stopped(s, buf, start, k, t)
    ensures k == StopOf(s, |buf|, start)
  {
    StopsThere(s, |buf|, start, k);
  }

  /** A failed write leaves a tree of blocks within the file size, which can be removed, if and only if that holds. */
  lemma StoppedExact(s: State, buf: seq<Byte>, start: nat, k: nat, t: State)
    requires s.Sound() && Filled(s) && 0 <= s.din.iSize <= MAX_FILE_SIZE && Stopped(s, buf, start, k, t)
    ensures t.Sound() && Filled(t) <==> KeepsOrder(s, |buf|, start, k)
  {
    if t.Sound() {
      if start / BLOCK_SIZE < k == LastBlock(start, |buf|) {
        StoppedAtTail(s, buf, start, k, t);
      } else {
        StoppedBefore(s, buf, start, k, t);
      }
    }
  }

  lemma StoppedAtTail(s: State, buf: seq<Byte>, start: nat, k: nat, t: State)
    requires s.Sound() && Stopped(s, buf, start, k, t) && t.Sound() && start / BLOCK_SIZE < k == LastBlock(start, |buf|)
    ensures Filled(t) <==> s.din.iDindirect > 0 || k > DOUBLE_START
  {
    assert BlocksOf(MAX_FILE_SIZE) == MAX_FILE_BLOCKS;
    forall b | b in t.own ensures Covered(t.own[b], MAX_FILE_BLOCKS) {
    }
    OwnedPointer(s, Double);
    OwnedPointer(t, Double);
    if s.din.iDindirect > 0 {
      assert t.own[s.din.iDindirect] == Double;
    } else if k > DOUBLE_START {
      var m := if start / BLOCK_SIZE < DOUBLE_START then DOUBLE_START else start / BLOCK_SIZE;
      assert PhysicalBlock(t.disk, t.din, m) != 0;
    }
  }

  lemma StoppedBefore(s: State, buf: seq<Byte>, start: nat, k: nat, t: State)
    requires s.Sound() && Filled(s) && Stopped(s, buf, start, k, t) && t.Sound() && t.din.iSize == s.din.iSize
    ensures Filled(t) <==> k == start / BLOCK_SIZE || k <= BlocksOf(s.din.iSize)
  {
    var first, e := start / BLOCK_SIZE, BlocksOf(s.din.iSize);
    OwnedPointer(s, Double);
    OwnedPointer(t, Double);
    if e > DOUBLE_START {
      assert t.own[s.din.iDindirect] == Double;
    }
    if k == first || k <= e {
      forall b | b in t.own ensures Covered(t.own[b], e) {
        if b !in s.own {
          SpanCovered(t.own[b], first, k, e);
        }
      }
    } else {
      OwnedPointer(t, SlotOf(k - 1));
      assert PhysicalBlock(t.disk, t.din, k - 1) != 0;
    }
  }

  /** The part of buf that falls before block k */
  function Before(buf: seq<Byte>, start: nat, k: nat): seq<Byte> {
    if start < k * BLOCK_SIZE <= start + |buf| then buf[..k * BLOCK_SIZE - start] else []
  }

  lemma StoppedHeadRight(s: State, buf: seq<Byte>, start: nat, k: nat, t: State)
    requires s.Sound() && Stopped(s, buf, start, k, t) && ArrayWritten(s, Before(buf, start, k), start, t) &&
             k > start / BLOCK_SIZE
    ensures !HeadSpoiled(s, |buf|, start)
  {
    hide State.Sound;
    hide Extended;
    hide Blocked;
    hide OthersKept;
    hide ReadBuffer;
    var first := start / BLOCK_SIZE;
    if MissingTable(s.disk, s.din, first) {
      HoleReadsZero(s, first);
      forall j | 0 <= j < BLOCK_SIZE && OutsideHead(|buf|, start, j) ensures ReadBuffer(s.disk, s.din, first)[j] == 0 {
        InBlock(first * BLOCK_SIZE + j, first, j);
        assert ByteAt(t, first * BLOCK_SIZE + j) == BufferAt(s, first * BLOCK_SIZE + j);
      }
    }
  }

  lemma StoppedWritten(s: State, buf: seq<Byte>, start: nat, k: nat, t: State)
    requires s.Sound() && Stopped(s, buf, start, k, t) && (k == start / BLOCK_SIZE || !HeadSpoiled(s, |buf|, start))
    ensures ArrayWritten(s, Before(buf, start, k), start, t)
  {
    hide State.Sound;
    hide Extended;
    hide Blocked;
    hide OthersKept;
    var first := start / BLOCK_SIZE;
    if MissingTable(s.disk, s.din, first) {
      HoleReadsZero(s, first);
    }
    var part := Before(buf, start, k);
    forall off | 0 <= off < MAX_FILE_SIZE
      ensures ByteAt(t, off) == if start <= off < start + |part| then part[off - start] else ByteAt(s, off)
    {
      if off / BLOCK_SIZE == first < k && off < start {
        assert OutsideHead(|buf|, start, off % BLOCK_SIZE);
      }
    }
  }

  /** A write that fails at block k has written exactly the part of buf before k, and changed no other byte, if and
      only if it failed at its first block, or its head was not spoiled. */
  lemma StoppedBytesExact(s: State, buf: seq<Byte>, start: nat, k: nat, t: State)
    requires s.Sound() && Stopped(s, buf, start, k, t)
    ensures ArrayWritten(s, Before(buf, start, k), start, t) <==>
              k == start / BLOCK_SIZE || !HeadSpoiled(s, |buf|, start)
  {
    hide HeadSpoiled;
    hide ArrayWritten;
    hide State.Sound;
    if k == start / BLOCK_SIZE || !HeadSpoiled(s, |buf|, start) {
      StoppedWritten(s, buf, start, k, t);
    } else if ArrayWritten(s, Before(buf, start, k), start, t) {
      StoppedHeadRight(s, buf, start, k, t);
    }
  }

  /** A write of no bytes maps its block all the same: the mapped blocks stay within the file size if and only if
      that one is. */
  lemma EmptyWriteFilled(s: State, start: nat, tail: Block, t: State)
    requires s.Sound() && Filled(s) && Done(s, [], start, start / BLOCK_SIZE, tail, t) &&
             t.din.iSize == s.din.iSize >= 0
    ensures Filled(t) <==> start / BLOCK_SIZE < BlocksOf(s.din.iSize)
  {
    var n, e := start / BLOCK_SIZE, BlocksOf(s.din.iSize);
    var p := PhysicalBlock(t.disk, t.din, n);
    OwnedPointer(t, SlotOf(n));
    assert Covered(SlotOf(n), e) <==> n < e;
    if n < e {
      forall b | b in t.own ensures Covered(t.own[b], e) {
        if b !in s.own {
          SpanCovered(t.own[b], n, n + 1, e);
        }
      }
      OwnedPointer(t, Double);
      OwnedPointer(s, Double);
      if e > DOUBLE_START {
        assert t.own[s.din.iDindirect] == Double;
      }
    } else {
      assert p in t.own && t.own[p] == SlotOf(n);
    }
  }

  /** testfs_free_blocks ends with a block count of 0, as testfs_remove_inode asserts, if and only if every block of
      the inode lies within the file size. */
  lemma ReleasedExact(s: State, gone: set<int>, t: State)
    requires s.Sound() && Released(s, gone, t)
    ensures t.din.blockCount == 0 <==> forall b :: b in s.own ==> Covered(s.own[b], BlocksOf(s.din.iSize))
    ensures t.din.blockCount >= 0
  {
    var e := BlocksOf(s.din.iSize);
    SubsetSize(gone, s.own.Keys);
    assert |s.own.Keys| == |s.own|;
    forall b | b in gone ensures b in s.own && Covered(s.own[b], e) {
      assert b in s.own.Keys;
    }
    if forall b :: b in s.own ==> Covered(s.own[b], e) {
      forall b | b in s.own.Keys ensures b in gone {
        assert b in s.own;
      }
      assert gone == s.own.Keys;
    }
    if t.din.blockCount == 0 {
      assert |gone| == |s.own.Keys|;
      assert gone == s.own.Keys;
      forall b | b in s.own ensures Covered(s.own[b], e) {
        assert b in gone;
      }
    }
  }

  lemma InodeBlocksReleased(s: State, gone: set<int>, t: State)
    requires s.Sound() && Released(s, gone, t)
    ensures forall b :: INODE_BLOCKS_START <= b < DATA_BLOCKS_START ==> t.disk[b] == s.disk[b]
  {
    forall b | INODE_BLOCKS_START <= b < DATA_BLOCKS_START ensures b !in gone {
    }
  }

  /** Then it has given back exactly the blocks of the inode, each once, and the inode is left without pointers. */
  lemma ReleasedAll(s: State, gone: set<int>, t: State)
    requires s.Sound() && Filled(s) && Released(s, gone, t)
    ensures gone == s.own.Keys && t.sb.usedBlockCount == s.sb.usedBlockCount - s.din.blockCount
    ensures t.(own := map[]).Sound()
    ensures SamePointers(t.din, DInode(0, [0, 0, 0, 0, 0, 0, 0, 0, 0, 0], 0, 0, 0, 0))
  {
    assert forall b :: b in s.own.Keys ==> b in gone;
    assert s.own.Keys <= gone;
    assert gone == s.own.Keys;
    forall j | 0 <= j < NR_DIRECT_BLOCKS ensures t.din.iBlockNr[j] == 0 {
      OwnedPointer(s, Direct(j));
    }
    OwnedPointer(s, Double);
    assert t.din.iDindirect == 0;
  }
}
