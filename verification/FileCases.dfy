/** Inputs on which the code of the files departs from its intent. */
module FileCases {
  import opened Bytes
  import opened Bits
  import opened Bitmaps
  import opened Super
  import opened BlockMap
  import opened ReadWrite
  import opened FileData
  import opened FreeBlocks
  import opened FileTheorems
  import opened DiskInodes
  import opened FileSystem

  /** A new file, without blocks */
  ghost predicate Empty(s: State) {
    |s.disk| == DEVICE_BLOCKS && s.own == map[] && SamePointers(s.din, NoInode()) && s.din.blockCount == 0 &&
    s.din.iSize == 0
  }

  lemma EmptyPointer(s: State, r: Slot)
    requires Empty(s) && r.Valid()
    ensures Ptr(s.disk, s.din, r) == 0
  {
    NoPointers(s.disk, r);
  }

  /** What a write into a new file takes for its first blocks */
  lemma EmptyNeeds(s: State)
    requires Empty(s)
    ensures NeedSpan(s, 0, 0) == 0 && NeedSpan(s, 0, 1) == 1 && NeedSpan(s, 0, 2) == 2
  {
    EmptyPointer(s, Direct(0));
    EmptyPointer(s, Direct(1));
    assert NeedAt(s, 0, 0) == NeedAt(s, 0, 1) == 1;
    assert NeedSpan(s, 0, 1) == NeedSpan(s, 0, 0) + 1;
    assert NeedSpan(s, 0, 2) == NeedSpan(s, 0, 1) + 1;
  }

  /** A write of one byte more than a block into a new file, with room for one block only, fails at its tail. The
      file then is a tree with the maximum size and no double indirect block, where testfs_free_blocks looks for one. */
  lemma TailFailure(s: State, buf: seq<Byte>, k: nat, t: State)
    requires Empty(s) && Room(s.sb) == 1 && |buf| == BLOCK_SIZE + 1
    ensures Blocked(s, 0, LastBlock(0, |buf|)) && !KeepsOrder(s, |buf|, 0, StopOf(s, |buf|, 0))
    ensures Stopped(s, buf, 0, k, t) ==>
              t.Sound() && !Filled(t) && t.din.iSize == MAX_FILE_SIZE && t.din.iDindirect == 0
  {
    EmptyNeeds(s);
    EmptyTree(s);
    StopsThere(s, |buf|, 0, 1);
    if Stopped(s, buf, 0, k, t) {
      StoppedWhere(s, buf, 0, k, t);
      StoppedExact(s, buf, 0, k, t);
      OwnedPointer(t, Double);
    }
  }

  /** Block 0, read as a double indirect block, leads to the inode freemap as the first second-level table; and that
      has an entry which is not 0, as long as an inode is allocated. */
  lemma SuperBlockAsTable(sb: SuperBlock, nr: nat)
    requires sb.Valid() && nr in sb.inodeFreemap.bits
    ensures Word(sb.disk[0], 0) == INODE_FREEMAP_START
    ensures exists q: nat :: q < NR_INDIRECT_BLOCKS && Word(sb.disk[INODE_FREEMAP_START], q) != 0
  {
    SuperWord(sb.sb, 0);
    var v, freemap := sb.inodeFreemap.v[..], sb.disk[INODE_FREEMAP_START];
    var j := nr / BITS_PER_WORD;
    assert BitAt(v, nr);
    if v[j] == 0 {
      ZeroHasNoBit(nr % BITS_PER_WORD);
    }
    assert DeviceByte(sb.disk, INODE_FREEMAP_START, j) == v[j];
    ZeroBytes(freemap, j / 4);
    assert freemap[j] != 0;
  }

  /** With room for one block, the allocation of the first indirect block of a new file takes none, and leaves a
      pointer to a free one. */
  lemma PartialAllocation(s: State, ret: int, t: State)
    requires Empty(s) && Room(s.sb) == 1 && Allocated(s, NR_DIRECT_BLOCKS, ret, t)
    ensures ret == -ENOSPC && t.used == s.used && Dangling(t.disk, t.din, t.used)
  {
    EmptyTree(s);
    AllocationExact(s, NR_DIRECT_BLOCKS, ret, t);
  }

  /** After one byte was written to the first block of the double indirect range of a new file, only that block, its
      second-level table, and the double indirect block are mapped. */
  lemma OneTable(s: State, b: Byte, tail: Block, t: State)
    requires Empty(s) && Done(s, [b], DOUBLE_START * BLOCK_SIZE, DOUBLE_START, tail, t)
    ensures t.Sound() && Ptr(t.disk, t.din, Double) != 0 && Ptr(t.disk, t.din, Table(0)) != 0 &&
            Ptr(t.disk, t.din, Table(1)) == 0
  {
    EmptyTree(s);
    EmptyPointer(s, Table(1));
    TableThere(s, DOUBLE_START, DOUBLE_START + 1, t, Double);
    TableThere(s, DOUBLE_START, DOUBLE_START + 1, t, Table(0));
    KeptPointer(s, DOUBLE_START, DOUBLE_START + 1, t, Table(1));
  }

  const SECOND_TABLE: nat := DOUBLE_START + NR_INDIRECT_BLOCKS

  /** The first block under the next second-level table is then a hole that is not read as zeros. */
  lemma HoleMisread(s: State, b: Byte, tail: Block, t: State)
    requires Empty(s) && Done(s, [b], DOUBLE_START * BLOCK_SIZE, DOUBLE_START, tail, t)
    ensures BlockBytes(t.disk, t.din, SECOND_TABLE) == ZeroBlock() != ReadBuffer(t.disk, t.din, SECOND_TABLE)
    ensures exists j :: 0 <= j < 4 && ReadBuffer(t.disk, t.din, SECOND_TABLE)[j] != 0
  {
    OneTable(s, b, tail, t);
    SlotOfPrevious(SECOND_TABLE, 1, 0);
    assert t.Sound() && MissingTable(t.disk, t.din, SECOND_TABLE);
    assert HasTable(t);
    HoleReadsZero(t, SECOND_TABLE);
    ReadFaithful(t, SECOND_TABLE);
    PointerRange(t.disk, t.din, t.own, SECOND_TABLE);
    ZeroBytes(ReadBuffer(t.disk, t.din, SECOND_TABLE), 0);
  }

  /** The two writes of this example succeed when there is room for three blocks, and then for two. */
  lemma TwoWritesFit(s: State, b: Byte, tail: Block, t: State)
    requires Empty(s) && Done(s, [b], DOUBLE_START * BLOCK_SIZE, DOUBLE_START, tail, t)
    ensures Blocked(s, DOUBLE_START, DOUBLE_START) <==> Room(s.sb) < 3
    ensures Blocked(t, SECOND_TABLE, SECOND_TABLE) <==> Room(t.sb) < 2
  {
    OneTable(s, b, tail, t);
    SlotOfPrevious(DOUBLE_START, 0, 0);
    SlotOfPrevious(SECOND_TABLE, 1, 0);
    EmptyPointer(s, Double);
    EmptyPointer(s, Table(0));
    EmptyPointer(s, TableEntry(0, 0));
    assert Ptr(t.disk, t.din, TableEntry(1, 0)) == 0;
    assert NeedAt(s, DOUBLE_START, DOUBLE_START) == 3 && NeedAt(t, SECOND_TABLE, SECOND_TABLE) == 2;
    assert NeedSpan(s, DOUBLE_START, DOUBLE_START) == 0 == NeedSpan(t, SECOND_TABLE, SECOND_TABLE);
    assert NeedSpan(s, DOUBLE_START, DOUBLE_START + 1) == 3 && NeedSpan(t, SECOND_TABLE, SECOND_TABLE + 1) == 2;
  }

  /** The second write, of one byte at offset 4 of that block, changes a byte before it. */
  lemma TwoWrites(s: State, b: Byte, tail: Block, t: State, c: Byte, tail': Block, r: State)
    requires Empty(s) && Done(s, [b], DOUBLE_START * BLOCK_SIZE, DOUBLE_START, tail, t)
    requires Done(t, [c], SECOND_TABLE * BLOCK_SIZE + 4, SECOND_TABLE, tail', r)
    ensures !ArrayWritten(t, [c], SECOND_TABLE * BLOCK_SIZE + 4, r)
  {
    OneTable(s, b, tail, t);
    HoleMisread(s, b, tail, t);
    var j :| 0 <= j < 4 && ReadBuffer(t.disk, t.din, SECOND_TABLE)[j] != 0;
    var off := SECOND_TABLE * BLOCK_SIZE + j;
    InBlock(off, SECOND_TABLE, j);
    InBlock(SECOND_TABLE * BLOCK_SIZE + 4, SECOND_TABLE, 4);
    assert ByteAt(r, off) == BufferAt(t, off);
    assert ByteAt(t, off) == 0;
  }
}
