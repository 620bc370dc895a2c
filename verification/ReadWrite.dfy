/** fs/read_write.c: reading, allocating, writing and freeing the blocks of a file. */
module ReadWrite {
  import opened Bytes
  import opened Bitmaps
  import opened Super
  import opened BlockMap

  const EFBIG: int := 27

  /** What testfs_read_block leaves in the caller's buffer. */
  function ReadBuffer(disk: seq<Block>, d: DInode, n: nat): Block
    requires n < MAX_FILE_BLOCKS
  {
    if MissingTable(disk, d, n) && 0 < d.iDindirect < |disk| then disk[d.iDindirect] else BlockBytes(disk, d, n)
  }

  /** The state that an operation on one inode sees: the device past the freemaps, the super block, the allocated
      blocks, and the inode with its blocks, each with the slot that points to it. */
  datatype State = State(disk: seq<Block>, sb: DSuperBlock, used: set<int>, din: DInode, own: map<int, Slot>) {
    /** The blocks of the inode form a tree, are allocated, and are counted. */
    ghost predicate Sound() {
      IsTree(disk, din, own) && own.Keys <= used && din.blockCount == |own|
    }

    /** Block p is allocated for the inode. */
    function Take(p: int): State {
      this.(used := used + {p}, sb := sb.(usedBlockCount := sb.usedBlockCount + 1),
            din := din.(blockCount := din.blockCount + 1))
    }

    /** Block p is zeroed and given back. */
    function Drop(p: int): State
      requires 0 <= p < |disk|
    {
      this.(disk := disk[p := ZeroBlock()], used := used - {p},
            sb := sb.(usedBlockCount := sb.usedBlockCount - 1), din := din.(blockCount := din.blockCount - 1))
    }

    /** Block p, unless it is 0, is allocated for the inode and stored in slot s of it. */
    function TakeTable(s: Slot, p: nat): State {
      if p == 0 then this else var t := Take(p); t.(din := AttachInode(t.din, s, p))
    }

    /** Block p, unless it is 0, is allocated for the inode, and the double indirect block becomes dindirect. */
    function TakeEntry(p: int, dindirect: Block): State
      requires p != 0 ==> 0 <= din.iDindirect < |disk|
    {
      if p == 0 then this else Take(p).Write(din.iDindirect, dindirect)
    }

    /** Block b is overwritten. */
    function Write(b: int, block: Block): State
      requires 0 <= b < |disk|
    {
      this.(disk := disk[b := block])
    }
  }

  /** Block b holds inodes, or it is allocated and not a table of this inode. */
  ghost predicate Holding(b: int, used: set<int>, own: map<int, Slot>) {
    (b < DATA_BLOCKS_START || b in used) && !(b in own && own[b].IsTable())
  }

  /** The blocks that held data, tables of other inodes, or inodes before a step still do. */
  ghost predicate Kept(disk: seq<Block>, used: set<int>, own: map<int, Slot>, disk': seq<Block>) {
    |disk| == |disk'| == DEVICE_BLOCKS &&
    forall b :: INODE_BLOCKS_START <= b < DEVICE_BLOCKS && Holding(b, used, own) ==> disk'[b] == disk[b]
  }

  /** Some slot points to a block that is not allocated. */
  ghost predicate Dangling(disk: seq<Block>, d: DInode, used: set<int>) {
    exists s: Slot :: s.Valid() && Ptr(disk, d, s) > 0 && Ptr(disk, d, s) !in used
  }

  /** What testfs_allocate_block does for the hole n: with room for the whole path it maps the block, and without it,
      it takes nothing; the tree is left alone only when there is no room at all. */
  ghost predicate Allocated(s: State, n: nat, ret: int, t: State)
    requires n < MAX_FILE_BLOCKS
  {
    var need := Need(s.disk, s.din, n);
    Kept(s.disk, s.used, s.own, t.disk) && t.din.iSize == s.din.iSize && t.din.iType == s.din.iType &&
    if Room(s.sb) >= need then
      ret > 0 && t.Sound() && Grown(s.disk, s.din, s.own, t.disk, t.din, t.own, n) &&
      ret in t.own && t.own[ret] == SlotOf(n) && (forall b :: b in t.own && b !in s.own ==> b !in s.used) &&
      ret !in s.own &&
      (forall b :: b in t.used <==> b in s.used || b in t.own) && |t.own| == |s.own| + need &&
      t.sb == s.sb.(usedBlockCount := s.sb.usedBlockCount + need)
    else
      ret == -ENOSPC && t.own == s.own && t.used == s.used && t.sb == s.sb && t.din.blockCount == s.din.blockCount &&
      t.din.iBlockNr == s.din.iBlockNr && 0 <= t.din.iIndirect < DEVICE_BLOCKS &&
      0 <= t.din.iDindirect < DEVICE_BLOCKS &&
      (forall m :: 0 <= m < MAX_FILE_BLOCKS ==> PhysicalBlock(t.disk, t.din, m) == PhysicalBlock(s.disk, s.din, m)) &&
      if Room(s.sb) <= 0 then t == s else Dangling(t.disk, t.din, t.used)
  }

  /** `memcpy(block + at, src, |src|)` */
  function Splice(block: Block, at: nat, src: seq<Byte>): Block
    requires at + |src| <= BLOCK_SIZE
  {
    block[..at] + src + block[at + |src|..]
  }

  /** The blocks of other inodes, and the inode blocks, are as they were. */
  ghost predicate OthersKept(s: State, t: State) {
    |s.disk| == |t.disk| == DEVICE_BLOCKS &&
    forall b :: INODE_BLOCKS_START <= b < DEVICE_BLOCKS && (b < DATA_BLOCKS_START || (b in s.used && b !in s.own)) ==>
      t.disk[b] == s.disk[b]
  }

  /** Every pointer in the inode is 0 or the number of a block of the device. */
  predicate PointersIn(d: DInode) {
    |d.iBlockNr| == NR_DIRECT_BLOCKS && 0 <= d.iIndirect < DEVICE_BLOCKS && 0 <= d.iDindirect < DEVICE_BLOCKS &&
    forall j :: 0 <= j < NR_DIRECT_BLOCKS ==> 0 <= d.iBlockNr[j] < DEVICE_BLOCKS
  }

  lemma SoundPointersIn(s: State)
    requires s.Sound()
    ensures PointersIn(s.din)
  {
    PointerRange(s.disk, s.din, s.own, 0);
    forall j | 0 <= j < NR_DIRECT_BLOCKS ensures 0 <= s.din.iBlockNr[j] < DEVICE_BLOCKS {
      PointerRange(s.disk, s.din, s.own, j);
    }
  }

  /** From s to t the inode only gained blocks, which were free, and these are all the blocks that were taken. */
  ghost predicate Gained(s: State, t: State) {
    t.Sound() && t.own.Keys >= s.own.Keys && (forall b :: b in s.own ==> t.own[b] == s.own[b]) &&
    (forall b :: b in t.used <==> b in s.used || b in t.own) &&
    (forall b :: b in t.own && b !in s.own ==> b !in s.used) &&
    t.sb == s.sb.(usedBlockCount := s.sb.usedBlockCount + |t.own| - |s.own|) &&
    t.din.iType == s.din.iType && OthersKept(s, t)
  }

  /** How many blocks testfs_allocate_block has to take for logical block n: none, if it is mapped */
  function Takes(s: State, n: nat): nat
    requires n < MAX_FILE_BLOCKS
  {
    if PhysicalBlock(s.disk, s.din, n) != 0 then 0 else Need(s.disk, s.din, n)
  }

  /** Logical block n, as it read before, got src at offset `at`; nothing else in the file changed. */
  ghost predicate Written(s: State, n: nat, at: nat, src: seq<Byte>, t: State)
    requires n < MAX_FILE_BLOCKS && at + |src| <= BLOCK_SIZE
  {
    Gained(s, t) && t.din.iSize == s.din.iSize &&
    PhysicalBlock(t.disk, t.din, n) != 0 && |t.own| == |s.own| + Takes(s, n) &&
    (forall b :: b in t.own && b !in s.own ==> OnPath(t.own[b], n)) &&
    forall m :: 0 <= m < MAX_FILE_BLOCKS ==>
      BlockBytes(t.disk, t.din, m) == if m == n then Splice(ReadBuffer(s.disk, s.din, n), at, src)
      else BlockBytes(s.disk, s.din, m)
  }

  class Inode {
    const sb: SuperBlock
    const nr: nat
    var din: DInode
    var dirty: bool
    var count: nat

    /** The state of this inode, when its blocks are those of `own`, each with the slot that points to it. */
    ghost function S(own: map<int, Slot>): State
      reads this, sb
    {
      State(sb.data, sb.sb, sb.used, din, own)
    }

    ghost predicate Sound(own: map<int, Slot>)
      reads this, sb, sb.inodeFreemap, sb.blockFreemap, sb.inodeFreemap.v, sb.blockFreemap.v
    {
      sb.Valid() && S(own).Sound()
    }

    constructor (sb: SuperBlock, nr: nat, din: DInode)
      ensures this.sb == sb && this.nr == nr && this.din == din && !dirty && count == 1
    {
      this.sb, this.nr, this.din := sb, nr, din;
      dirty, count := false, 1;
    }

    /** testfs_alloc_block_for_inode */
    method AllocBlockForInode() returns (ret: int)
      requires sb.Valid()
      modifies this`din, this`dirty, sb, sb.blockFreemap, sb.blockFreemap.v
      ensures sb.Valid() && sb.inodeFreemap.bits == old(sb.inodeFreemap.bits)
      ensures ret > 0 || ret == -ENOSPC
      ensures ret > 0 <==> Room(old(sb.sb)) > 0
      ensures ret > 0 ==> DATA_BLOCKS_START <= ret < DEVICE_BLOCKS && ret !in old(sb.used)
      ensures ret > 0 ==> (forall own :: S(own) == old(S(own)).Take(ret)) && dirty
      ensures din == if ret > 0 then old(din).(blockCount := old(din).blockCount + 1) else old(din)
      ensures ret < 0 ==> (forall own :: S(own) == old(S(own))) && dirty == old(dirty)
    {
      ret := sb.AllocBlock();
      if ret >= 0 {
        din := din.(blockCount := din.blockCount + 1);
        dirty := true;
      }
    }

    /** testfs_free_block_from_inode */
    method FreeBlockFromInode(b: nat)
      requires sb.Valid() && (b != 0 ==> b in sb.used)
      modifies this`din, this`dirty, sb, sb.blockFreemap, sb.blockFreemap.v
      ensures sb.Valid() && sb.inodeFreemap.bits == old(sb.inodeFreemap.bits)
      ensures b == 0 ==> (forall own :: S(own) == old(S(own))) && dirty == old(dirty)
      ensures b != 0 ==> b < |old(sb.data)| && (forall own :: S(own) == old(S(own)).Drop(b)) && dirty
    {
      if b == 0 {
        return;
      }
      sb.FreeBlock(b);
      din := din.(blockCount := din.blockCount - 1);
      dirty := true;
    }

    /** testfs_read_block */
    method ReadBlock(logBlockNr: nat, ghost own: map<int, Slot>) returns (ret: int, block: Block)
      requires Sound(own)
      ensures logBlockNr >= MAX_FILE_BLOCKS ==> ret == -EFBIG
      ensures logBlockNr < MAX_FILE_BLOCKS ==>
                ret == PhysicalBlock(sb.data, din, logBlockNr) >= 0 && block == ReadBuffer(sb.data, din, logBlockNr)
    {
      block := ZeroBlock();
      var phyBlockNr := 0;
      var n := logBlockNr;
      if n < MAX_FILE_BLOCKS {
        PointerRange(sb.data, din, own, n);
      }
      if n < NR_DIRECT_BLOCKS {
        phyBlockNr := din.iBlockNr[n];
      } else {
        n := n - NR_DIRECT_BLOCKS;
        if n >= NR_INDIRECT_BLOCKS {
          n := n - NR_INDIRECT_BLOCKS;
          if n >= NR_DOUBLE_BLOCKS {
            return -EFBIG, block;
          }
          if din.iDindirect > 0 {
            block := sb.disk[din.iDindirect];
            var position := n / NR_INDIRECT_BLOCKS;
            var newBlock := Word(block, position);
            if newBlock > 0 {
              block := sb.disk[newBlock];
              phyBlockNr := Word(block, n % NR_INDIRECT_BLOCKS);
            } else {
              return newBlock, block;
            }
          }
        } else if din.iIndirect > 0 {
          block := sb.disk[din.iIndirect];
          phyBlockNr := Word(block, n);
        }
      }
      if phyBlockNr > 0 {
        block := sb.disk[phyBlockNr];
      } else {
        block := ZeroBlock();
      }
      return phyBlockNr, block;
    }

    /** testfs_allocate_block, direct range */
    method AllocateDirect(n: nat, ghost own: map<int, Slot>) returns (ret: int, ghost own': map<int, Slot>)
      requires Sound(own) && n < NR_DIRECT_BLOCKS && PhysicalBlock(sb.data, din, n) == 0
      modifies this`din, this`dirty, sb, sb.blockFreemap, sb.blockFreemap.v
      ensures !dirty ==> !old(dirty) && din == old(din)
      ensures sb.Valid() && sb.inodeFreemap.bits == old(sb.inodeFreemap.bits)
      ensures Allocated(old(S(own)), n, ret, S(own')) && (ret > 0 ==> dirty)
    {
      hide SuperBlock.Valid;
      hide State.Sound;
      hide Allocated;
      SoundPointersIn(S(own));
      own' := own;
      ret := AllocBlockForInode();
      if ret >= 0 {
        din := din.(iBlockNr := din.iBlockNr[n := ret]);
        own' := own[ret := Direct(n)];
        DirectMapped(old(S(own)), n, ret, S(own'));
      } else {
        NoRoom(S(own), n);
      }
    }

    /** testfs_allocate_block, indirect range: the indirect block, newly allocated if there was none (then p1 is its
        number). */
    method GetIndirect(ghost own: map<int, Slot>) returns (ret: int, indirect: Block, p1: nat)
      requires Sound(own)
      modifies this`din, this`dirty, sb, sb.blockFreemap, sb.blockFreemap.v
      ensures !dirty ==> !old(dirty) && din == old(din)
      ensures sb.Valid() && sb.inodeFreemap.bits == old(sb.inodeFreemap.bits)
      ensures ret < 0 <==> old(din).iIndirect == 0 && Room(old(sb.sb)) <= 0
      ensures ret < 0 ==> ret == -ENOSPC && S(own) == old(S(own))
      ensures ret >= 0 ==>
                Fits(old(sb.data), old(din), own, Indirect, p1) && p1 !in old(sb.used) &&
                (p1 != 0 ==> Room(old(sb.sb)) > 0) &&
                S(own) == old(S(own)).TakeTable(Indirect, p1) && (p1 != 0 ==> dirty) &&
                0 < din.iIndirect < DEVICE_BLOCKS &&
                indirect == (if p1 == 0 then sb.data[din.iIndirect] else ZeroBlock())
    {
      assert Ptr(sb.data, din, Indirect) == din.iIndirect;
      indirect := ZeroBlock();
      p1 := 0;
      ret := 0;
      if din.iIndirect == 0 {
        ret := AllocBlockForInode();
        if ret < 0 {
          return;
        }
        p1 := ret;
        din := din.(iIndirect := ret);
      } else {
        indirect := sb.disk[din.iIndirect];
      }
    }

    /** testfs_allocate_block, indirect range: data block p goes into the indirect block. */
    method StoreIndirect(n: nat, table: Block, p1: nat, p: nat, ghost s: State) returns (ghost own: map<int, Slot>)
      requires sb.Valid() && s.Sound() && NR_DIRECT_BLOCKS <= n < DOUBLE_START && PhysicalBlock(s.disk, s.din, n) == 0
      requires Fits(s.disk, s.din, s.own, Indirect, p1) && p1 !in s.used && Room(s.sb) >= if p1 == 0 then 1 else 2
      requires DATA_BLOCKS_START <= p < DEVICE_BLOCKS && p !in s.used && p != p1
      requires S(s.own) == s.TakeTable(Indirect, p1).Take(p)
      requires 0 < din.iIndirect < DEVICE_BLOCKS && table == if p1 == 0 then s.disk[din.iIndirect] else ZeroBlock()
      modifies sb`disk, sb`data
      ensures sb.Valid() && Allocated(s, n, p, S(own))
    {
      var indirect := PutWord(table, n - NR_DIRECT_BLOCKS, p);
      sb.WriteBlock(din.iIndirect, indirect);
      PutWordIsPut(table, n - NR_DIRECT_BLOCKS, p);
      own := Own(s.own, p1, Indirect)[p := IndirectEntry(n - NR_DIRECT_BLOCKS)];
      IndirectMapped(s, n, p1, p, indirect, S(own));
    }

    /** testfs_allocate_block, indirect range */
    method AllocateIndirect(n: nat, ghost own: map<int, Slot>) returns (ret: int, ghost own': map<int, Slot>)
      requires Sound(own) && NR_DIRECT_BLOCKS <= n < DOUBLE_START && PhysicalBlock(sb.data, din, n) == 0
      modifies this`din, this`dirty, sb, sb.blockFreemap, sb.blockFreemap.v
      ensures !dirty ==> !old(dirty) && din == old(din)
      ensures sb.Valid() && sb.inodeFreemap.bits == old(sb.inodeFreemap.bits)
      ensures Allocated(old(S(own)), n, ret, S(own')) && (ret > 0 ==> dirty)
    {
      hide SuperBlock.Valid;
      hide Allocated;
      ghost var s := S(own);
      own' := own;
      var indirect, p1;
      ret, indirect, p1 := GetIndirect(own);
      if ret < 0 {
        NoRoom(s, n);
        return;
      }
      ret := AllocBlockForInode();
      if ret >= 0 {
        own' := StoreIndirect(n, indirect, p1, ret, s);
      } else if p1 != 0 {
        FreeBlockFromInode(din.iIndirect);
        IndirectDropped(s, n, p1, S(own));
      } else {
        NoRoom(s, n);
      }
    }

    /** testfs_allocate_block, double indirect range: the double indirect block, newly allocated if there was none. */
    method GetDouble(ghost own: map<int, Slot>) returns (ret: int, dindirect: Block, p1: nat)
      requires Sound(own)
      modifies this`din, this`dirty, sb, sb.blockFreemap, sb.blockFreemap.v
      ensures !dirty ==> !old(dirty) && din == old(din)
      ensures sb.Valid() && sb.inodeFreemap.bits == old(sb.inodeFreemap.bits)
      ensures ret < 0 <==> old(din).iDindirect == 0 && Room(old(sb.sb)) <= 0
      ensures ret < 0 ==> ret == -ENOSPC && S(own) == old(S(own))
      ensures ret >= 0 ==>
                Fits(old(sb.data), old(din), own, Double, p1) && p1 !in old(sb.used) &&
                (p1 != 0 ==> Room(old(sb.sb)) > 0) &&
                S(own) == old(S(own)).TakeTable(Double, p1) && (p1 != 0 ==> dirty) &&
                DATA_BLOCKS_START <= din.iDindirect < DEVICE_BLOCKS &&
                dindirect == (if p1 == 0 then sb.data[din.iDindirect] else ZeroBlock())
    {
      assert Ptr(sb.data, din, Double) == din.iDindirect;
      dindirect := ZeroBlock();
      p1 := 0;
      ret := 0;
      if din.iDindirect == 0 {
        ret := AllocBlockForInode();
        if ret < 0 {
          return;
        }
        p1 := ret;
        din := din.(iDindirect := ret);
      } else {
        dindirect := sb.disk[din.iDindirect];
      }
    }

    /** testfs_allocate_block, double indirect range: the second-level table at `position`, newly allocated if there
        was none. */
    method GetTable(position: nat, top: Block, ghost own: map<int, Slot>)
      returns (ret: int, indirect: Block, p2: nat, dindirect: Block)
      requires sb.Valid() && position < NR_INDIRECT_BLOCKS && DATA_BLOCKS_START <= din.iDindirect < DEVICE_BLOCKS
      requires 0 <= Word(top, position) < DEVICE_BLOCKS &&
               (Word(top, position) != 0 ==> DATA_BLOCKS_START <= Word(top, position))
      modifies this`din, this`dirty, sb, sb.blockFreemap, sb.blockFreemap.v
      ensures !dirty ==> !old(dirty) && din == old(din)
      ensures sb.Valid() && sb.inodeFreemap.bits == old(sb.inodeFreemap.bits)
      ensures ret < 0 <==> Word(top, position) == 0 && Room(old(sb.sb)) <= 0
      ensures ret < 0 ==> ret == -ENOSPC && S(own) == old(S(own)) && p2 == 0
      ensures p2 != 0 <==> Word(top, position) == 0 && ret >= 0
      ensures p2 == 0 ==> dindirect == top && S(own) == old(S(own)) && dirty == old(dirty)
      ensures p2 != 0 ==>
                DATA_BLOCKS_START <= p2 < DEVICE_BLOCKS && p2 !in old(sb.used) && Room(old(sb.sb)) > 0 && dirty &&
                IsPut(top, position, p2, dindirect) && |old(sb.data)| == DEVICE_BLOCKS &&
                S(own) == old(S(own)).TakeEntry(p2, dindirect)
      ensures ret >= 0 ==>
                Word(dindirect, position) == (if p2 == 0 then Word(top, position) else p2) &&
                indirect == (if p2 == 0 then sb.data[Word(top, position)] else ZeroBlock())
    {
      indirect := ZeroBlock();
      dindirect := top;
      p2 := 0;
      ret := 0;
      if Word(dindirect, position) == 0 {
        ret := AllocBlockForInode();
        if ret >= 0 {
          p2 := ret;
          PutWordIsPut(dindirect, position, ret);
          dindirect := PutWord(dindirect, position, ret);
          sb.WriteBlock(din.iDindirect, dindirect);
        }
      } else {
        indirect := sb.disk[Word(dindirect, position)];
      }
    }

    /** testfs_allocate_block, double indirect range: data block p goes into the second-level table t. */
    method StoreDouble(n: nat, table: Block, ghost dindirect: Block, t: nat, p1: nat, p2: nat, p: nat, ghost s: State)
      returns (ghost own: map<int, Slot>)
      requires sb.Valid() && s.Sound() && DOUBLE_START <= n < MAX_FILE_BLOCKS
      requires DoubleTaken(s, n, p1, p2, dindirect, t) && table == if p2 == 0 then s.disk[t] else ZeroBlock()
      requires DoubleFits(s.disk, s.din, s.own, n, p1, p2, p) && p !in s.used
      requires Room(s.sb) >= Need(s.disk, s.din, n)
      requires S(s.own) == s.TakeTable(Double, p1).TakeEntry(p2, dindirect).Take(p)
      modifies sb`disk, sb`data
      ensures sb.Valid() && Allocated(s, n, p, S(own))
    {
      var indirect := PutWord(table, SlotOf(n).q, p);
      sb.WriteBlock(t, indirect);
      PutWordIsPut(table, SlotOf(n).q, p);
      own := DoubleOwn(s.own, n, p1, p2, p);
      DoubleMapped(s, n, p1, p2, p, dindirect, t, indirect, S(own));
    }

    /** testfs_allocate_block, double indirect range, once the tables are there */
    method FinishDouble(n: nat, table: Block, dindirect: Block, p1: nat, p2: nat, ghost s: State)
      returns (ret: int, ghost own: map<int, Slot>)
      requires sb.Valid() && s.Sound() && DOUBLE_START <= n < MAX_FILE_BLOCKS && PhysicalBlock(s.disk, s.din, n) == 0
      requires Fits(s.disk, s.din, s.own, Double, p1) && TableFits(s, n, p1, p2)
      requires DoubleTaken(s, n, p1, p2, dindirect, Word(dindirect, SlotOf(n).p))
      requires table == if p2 == 0 then s.disk[Word(dindirect, SlotOf(n).p)] else ZeroBlock()
      requires Room(s.sb) >= Need(s.disk, s.din, n) - 1
      requires S(s.own) == s.TakeTable(Double, p1).TakeEntry(p2, dindirect)
      modifies this`din, this`dirty, sb, sb.blockFreemap, sb.blockFreemap.v
      ensures !dirty ==> !old(dirty) && din == old(din)
      ensures sb.Valid() && sb.inodeFreemap.bits == old(sb.inodeFreemap.bits)
      ensures Allocated(s, n, ret, S(own)) && (ret > 0 ==> dirty)
    {
      hide SuperBlock.Valid;
      hide Allocated;
      own := s.own;
      var position := (n - DOUBLE_START) / NR_INDIRECT_BLOCKS;
      ret := AllocBlockForInode();
      if ret >= 0 {
        own := StoreDouble(n, table, dindirect, Word(dindirect, position), p1, p2, ret, s);
      } else {
        UndoDouble(n, Word(dindirect, position), dindirect, p1, p2, s);
      }
    }

    /** testfs_allocate_block, double indirect range, when there is no room for the data block: gives back the new
        tables. */
    method UndoDouble(n: nat, table: nat, ghost dindirect: Block, p1: nat, p2: nat, ghost s: State)
      requires sb.Valid() && s.Sound() && DOUBLE_START <= n < MAX_FILE_BLOCKS && PhysicalBlock(s.disk, s.din, n) == 0
      requires Fits(s.disk, s.din, s.own, Double, p1) && TableFits(s, n, p1, p2)
      requires DoubleTaken(s, n, p1, p2, dindirect, table)
      requires Room(s.sb) == Need(s.disk, s.din, n) - 1
      requires S(s.own) == s.TakeTable(Double, p1).TakeEntry(p2, dindirect)
      modifies this`din, this`dirty, sb, sb.blockFreemap, sb.blockFreemap.v
      ensures !dirty ==> !old(dirty) && din == old(din)
      ensures sb.Valid() && sb.inodeFreemap.bits == old(sb.inodeFreemap.bits)
      ensures Allocated(s, n, -ENOSPC, S(s.own))
    {
      if p1 != 0 {
        FreeBlockFromInode(table);
        FreeBlockFromInode(din.iDindirect);
        DoubleDropped(s, n, p1, p2, dindirect, S(s.own));
      } else if p2 != 0 {
        FreeBlockFromInode(table);
        TableDropped(s, n, p2, dindirect, S(s.own));
      } else {
        NoRoom(s, n);
      }
    }

    /** testfs_allocate_block, double indirect range, when there is no room for the second-level table: if the double
        indirect block was there, the allocation of the data block is tried all the same, and fails too. */
    method FailDouble(n: nat, ghost dindirect: Block, p1: nat, ghost s: State) returns (ret: int)
      requires sb.Valid() && s.Sound() && DOUBLE_START <= n < MAX_FILE_BLOCKS && PhysicalBlock(s.disk, s.din, n) == 0
      requires Fits(s.disk, s.din, s.own, Double, p1) && p1 !in s.used
      requires S(s.own) == s.TakeTable(Double, p1) && Room(s.sb) == if p1 == 0 then 0 else 1
      modifies this`din, this`dirty, sb, sb.blockFreemap, sb.blockFreemap.v
      ensures !dirty ==> !old(dirty) && din == old(din)
      ensures sb.Valid() && sb.inodeFreemap.bits == old(sb.inodeFreemap.bits)
      ensures ret == -ENOSPC && Allocated(s, n, ret, S(s.own))
    {
      ret := -ENOSPC;
      if p1 != 0 {
        FreeBlockFromInode(din.iDindirect);
        DoubleDropped(s, n, p1, 0, dindirect, S(s.own));
      } else {
        ret := AllocBlockForInode();
        NoRoom(s, n);
      }
    }

    /** testfs_allocate_block, double indirect range, once the double indirect block is there */
    method AllocateBelow(n: nat, top: Block, p1: nat, ghost s: State) returns (ret: int, ghost own: map<int, Slot>)
      requires sb.Valid() && s.Sound() && DOUBLE_START <= n < MAX_FILE_BLOCKS && PhysicalBlock(s.disk, s.din, n) == 0
      requires Fits(s.disk, s.din, s.own, Double, p1) && p1 !in s.used && (p1 != 0 ==> Room(s.sb) > 0)
      requires S(s.own) == s.TakeTable(Double, p1) && DATA_BLOCKS_START <= din.iDindirect < DEVICE_BLOCKS
      requires top == if p1 == 0 then s.disk[din.iDindirect] else ZeroBlock()
      modifies this`din, this`dirty, sb, sb.blockFreemap, sb.blockFreemap.v
      ensures !dirty ==> !old(dirty) && din == old(din)
      ensures sb.Valid() && sb.inodeFreemap.bits == old(sb.inodeFreemap.bits)
      ensures Allocated(s, n, ret, S(own)) && (ret > 0 ==> dirty)
    {
      hide Allocated;
      hide IsTree;
      own := s.own;
      var position := (n - DOUBLE_START) / NR_INDIRECT_BLOCKS;
      PointerRange(s.disk, s.din, s.own, n);
      ZeroWord(ZeroBlock(), position);
      var indirect, p2, dindirect;
      ret, indirect, p2, dindirect := GetTable(position, top, s.own);
      if ret < 0 {
        ret := FailDouble(n, dindirect, p1, s);
        return;
      }
      ret, own := FinishDouble(n, indirect, dindirect, p1, p2, s);
    }

    /** testfs_allocate_block, double indirect range */
    method AllocateDouble(n: nat, ghost own: map<int, Slot>) returns (ret: int, ghost own': map<int, Slot>)
      requires Sound(own) && DOUBLE_START <= n < MAX_FILE_BLOCKS && PhysicalBlock(sb.data, din, n) == 0
      modifies this`din, this`dirty, sb, sb.blockFreemap, sb.blockFreemap.v
      ensures !dirty ==> !old(dirty) && din == old(din)
      ensures sb.Valid() && sb.inodeFreemap.bits == old(sb.inodeFreemap.bits)
      ensures Allocated(old(S(own)), n, ret, S(own')) && (ret > 0 ==> dirty)
    {
      hide Allocated;
      hide IsTree;
      ghost var s := S(own);
      var dindirect, p1;
      ret, dindirect, p1 := GetDouble(own);
      if ret < 0 {
        NoRoom(s, n);
        own' := own;
        return;
      }
      ret, own' := AllocateBelow(n, dindirect, p1, s);
    }

    /** testfs_allocate_block */
    method AllocateBlock(n: nat, ghost own: map<int, Slot>) returns (ret: int, block: Block, ghost own': map<int, Slot>)
      requires Sound(own)
      modifies this`din, this`dirty, sb, sb.blockFreemap, sb.blockFreemap.v
      ensures !dirty ==> !old(dirty) && din == old(din)
      ensures sb.Valid() && sb.inodeFreemap.bits == old(sb.inodeFreemap.bits)
      ensures n >= MAX_FILE_BLOCKS ==> ret == -EFBIG
      ensures n < MAX_FILE_BLOCKS ==> block == ReadBuffer(old(sb.data), old(din), n)
      ensures n < MAX_FILE_BLOCKS && PhysicalBlock(old(sb.data), old(din), n) != 0 ==>
                ret == PhysicalBlock(old(sb.data), old(din), n) > 0
      ensures n >= MAX_FILE_BLOCKS || PhysicalBlock(old(sb.data), old(din), n) != 0 ==>
                own' == own && S(own) == old(S(own)) && dirty == old(dirty)
      ensures n < MAX_FILE_BLOCKS && PhysicalBlock(old(sb.data), old(din), n) == 0 ==>
                Allocated(old(S(own)), n, ret, S(own'))
    {
      own' := own;
      ret, block := ReadBlock(n, own);
      if ret != 0 {
        return;
      }
      if n < NR_DIRECT_BLOCKS {
        ret, own' := AllocateDirect(n, own);
      } else if n >= DOUBLE_START {
        ret, own' := AllocateDouble(n, own);
      } else {
        ret, own' := AllocateIndirect(n, own);
      }
    }

    /** testfs_allocate_block, then memcpy into the block, then write_blocks: one step of testfs_write_data. */
    method WriteInto(n: nat, at: nat, src: seq<Byte>, ghost own: map<int, Slot>)
      returns (ret: int, ghost own': map<int, Slot>)
      requires Sound(own) && at + |src| <= BLOCK_SIZE
      modifies this`din, this`dirty, sb, sb.blockFreemap, sb.blockFreemap.v
      ensures !dirty ==> !old(dirty) && din == old(din)
      ensures sb.Valid() && sb.inodeFreemap.bits == old(sb.inodeFreemap.bits)
      ensures n >= MAX_FILE_BLOCKS ==> ret == -EFBIG && own' == own && S(own) == old(S(own))
      ensures n < MAX_FILE_BLOCKS ==>
                (ret >= 0 <==>
                   PhysicalBlock(old(sb.data), old(din), n) != 0 ||
                   Room(old(sb.sb)) >= Need(old(sb.data), old(din), n)) &&
                if ret >= 0 then Written(old(S(own)), n, at, src, S(own')) else Allocated(old(S(own)), n, ret, S(own'))
    {
      hide SuperBlock.Valid;
      ghost var s := S(own);
      var block;
      ret, block, own' := AllocateBlock(n, own);
      if ret < 0 {
        return;
      }
      BlockMapped(s, n, ret, S(own'));
      ghost var t := S(own');
      sb.WriteBlock(ret, Splice(block, at, src));
      BlockWritten(s, n, at, src, ret, t, S(own'));
    }
  }

  /** With no room at all, an allocation for a hole does nothing. */
  lemma NoRoom(s: State, n: nat)
    requires s.Sound() && n < MAX_FILE_BLOCKS && PhysicalBlock(s.disk, s.din, n) == 0 && Room(s.sb) <= 0
    ensures Allocated(s, n, -ENOSPC, s)
  {
    PointerRange(s.disk, s.din, s.own, n);
  }

  lemma DirectMapped(s: State, n: nat, p: nat, r: State)
    requires s.Sound() && n < NR_DIRECT_BLOCKS && PhysicalBlock(s.disk, s.din, n) == 0 && Room(s.sb) > 0
    requires DATA_BLOCKS_START <= p < DEVICE_BLOCKS && p !in s.used
    requires r == var t := s.Take(p); t.(din := t.din.(iBlockNr := t.din.iBlockNr[n := p]),
                                         own := s.own[p := Direct(n)])
    ensures Allocated(s, n, p, r)
  {
    GrowDirect(s.disk, s.din, s.own, n, p, r.disk, r.din);
    OwnSize(s.own, p, Direct(n));
  }

  /** The block that testfs_allocate_block returned is that of n, and the rest of the file is as it was. */
  lemma BlockMapped(s: State, n: nat, p: int, t: State)
    requires s.Sound() && n < MAX_FILE_BLOCKS && p > 0
    requires if PhysicalBlock(s.disk, s.din, n) != 0 then p == PhysicalBlock(s.disk, s.din, n) && t == s
             else Allocated(s, n, p, t)
    ensures DATA_BLOCKS_START <= p < DEVICE_BLOCKS && p in t.own && t.own[p] == SlotOf(n)
    ensures Gained(s, t) && t.din.iSize == s.din.iSize && |t.own| == |s.own| + Takes(s, n)
    ensures forall b :: b in t.own && b !in s.own ==> OnPath(t.own[b], n)
    ensures forall m :: 0 <= m < MAX_FILE_BLOCKS && m != n ==>
              BlockBytes(t.disk, t.din, m) == BlockBytes(s.disk, s.din, m)
  {
    if PhysicalBlock(s.disk, s.din, n) == 0 {
      forall m | 0 <= m < MAX_FILE_BLOCKS && m != n
        ensures BlockBytes(t.disk, t.din, m) == BlockBytes(s.disk, s.din, m)
      {
        GrownBytes(s.disk, s.din, s.own, t.disk, t.din, t.own, n, m);
      }
    }
  }

  lemma BlockWritten(s: State, n: nat, at: nat, src: seq<Byte>, p: int, t: State, r: State)
    requires n < MAX_FILE_BLOCKS && at + |src| <= BLOCK_SIZE && 0 <= p < |t.disk|
    requires Gained(s, t) && t.din.iSize == s.din.iSize && |t.own| == |s.own| + Takes(s, n)
    requires p in t.own && t.own[p] == SlotOf(n) && (p in s.used ==> p in s.own)
    requires forall b :: b in t.own && b !in s.own ==> OnPath(t.own[b], n)
    requires forall m :: 0 <= m < MAX_FILE_BLOCKS && m != n ==>
               BlockBytes(t.disk, t.din, m) == BlockBytes(s.disk, s.din, m)
    requires r == t.Write(p, Splice(ReadBuffer(s.disk, s.din, n), at, src))
    ensures Written(s, n, at, src, r)
  {
    var block := Splice(ReadBuffer(s.disk, s.din, n), at, src);
    OverwriteGained(s, n, p, block, t, r);
    OverwrittenBytes(n, p, block, t, r);
    hide Gained;
    hide Splice;
    hide ReadBuffer;
    hide BlockBytes;
    hide Takes;
    hide OnPath;
  }

  lemma OverwriteGained(s: State, n: nat, p: int, block: Block, t: State, r: State)
    requires n < MAX_FILE_BLOCKS && 0 <= p < |t.disk| && Gained(s, t)
    requires p in t.own && t.own[p] == SlotOf(n) && (p in s.used ==> p in s.own) && r == t.Write(p, block)
    ensures Gained(s, r) && PhysicalBlock(r.disk, r.din, n) != 0
  {
    PtrFrame(t.disk, t.din, t.own, r.disk, r.din);
  }

  lemma OverwrittenBytes(n: nat, p: int, block: Block, t: State, r: State)
    requires n < MAX_FILE_BLOCKS && 0 <= p < |t.disk| && t.Sound() && p in t.own && t.own[p] == SlotOf(n) &&
             r == t.Write(p, block)
    ensures forall m :: 0 <= m < MAX_FILE_BLOCKS ==>
              BlockBytes(r.disk, r.din, m) == if m == n then block else BlockBytes(t.disk, t.din, m)
  {
    forall m | 0 <= m < MAX_FILE_BLOCKS
      ensures BlockBytes(r.disk, r.din, m) == if m == n then block else BlockBytes(t.disk, t.din, m)
    {
      OverwriteBytes(t.disk, t.din, t.own, n, p, block, m);
    }
  }

  /** A block for the second-level table of n: 0 if there is one, and else a block that is not allocated. */
  ghost predicate TableFits(s: State, n: nat, p1: nat, p2: nat)
    requires DOUBLE_START <= n < MAX_FILE_BLOCKS
  {
    if Ptr(s.disk, s.din, SlotOf(n).Parent()) != 0 then p2 == 0
    else DATA_BLOCKS_START <= p2 < DEVICE_BLOCKS && p2 !in s.used && p2 != p1
  }

  lemma DoubleDropped(s: State, n: nat, p1: nat, p2: nat, dindirect: Block, t: State)
    requires s.Sound() && DOUBLE_START <= n < MAX_FILE_BLOCKS && PhysicalBlock(s.disk, s.din, n) == 0
    requires Fits(s.disk, s.din, s.own, Double, p1) && p1 != 0 && p1 !in s.used
    requires p2 != 0 ==> DATA_BLOCKS_START <= p2 < DEVICE_BLOCKS && p2 !in s.used && p2 != p1
    requires Room(s.sb) == if p2 == 0 then 1 else 2
    requires t == if p2 == 0 then s.TakeTable(Double, p1).Drop(p1)
                  else s.TakeTable(Double, p1).TakeEntry(p2, dindirect).Drop(p2).Drop(p1)
    ensures Allocated(s, n, -ENOSPC, t)
  {
    assert Ptr(s.disk, s.din, SlotOf(n).Parent()) == 0;
    PointerRange(s.disk, s.din, s.own, n);
    GrownTable(s.disk, s.din, s.own, Double, p1, n, t.disk, t.din);
    assert t.used == s.used;
  }

  lemma TableDropped(s: State, n: nat, p2: nat, dindirect: Block, t: State)
    requires s.Sound() && DOUBLE_START <= n < MAX_FILE_BLOCKS && PhysicalBlock(s.disk, s.din, n) == 0
    requires 0 < s.din.iDindirect < DEVICE_BLOCKS && TableFits(s, n, 0, p2) && p2 != 0
    requires IsPut(s.disk[s.din.iDindirect], SlotOf(n).p, p2, dindirect)
    requires Room(s.sb) == 1 && t == s.TakeEntry(p2, dindirect).Drop(p2)
    ensures Allocated(s, n, -ENOSPC, t)
  {
    PointerRange(s.disk, s.din, s.own, n);
    assert Ptr(s.disk, s.din, Double) in s.own;
    GrownTable(s.disk, s.din, s.own, SlotOf(n).Parent(), p2, n, t.disk, t.din);
    assert t.used == s.used;
  }

  /** The double indirect block and the second-level table of n are in place: their numbers and, if the table is new,
      the new contents of the double indirect block. */
  ghost predicate DoubleTaken(s: State, n: nat, p1: nat, p2: nat, dindirect: Block, t: int)
    requires DOUBLE_START <= n < MAX_FILE_BLOCKS
  {
    var u := if p1 == 0 then s.din.iDindirect else p1;
    p1 !in s.used && p2 !in s.used && |s.disk| == DEVICE_BLOCKS &&
    DATA_BLOCKS_START <= u < DEVICE_BLOCKS && DATA_BLOCKS_START <= t < DEVICE_BLOCKS &&
    t == (if p2 == 0 then Ptr(s.disk, s.din, SlotOf(n).Parent()) else p2) &&
    (p2 != 0 ==> IsPut(if p1 == 0 then s.disk[u] else ZeroBlock(), SlotOf(n).p, p2, dindirect))
  }

  lemma DoubleDisk(s: State, n: nat, p1: nat, p2: nat, p: nat, dindirect: Block, t: nat, indirect: Block,
                   disk: seq<Block>)
    requires s.Sound() && DOUBLE_START <= n < MAX_FILE_BLOCKS
    requires DoubleFits(s.disk, s.din, s.own, n, p1, p2, p)
    requires DoubleTaken(s, n, p1, p2, dindirect, t)
    requires IsPut(if p2 == 0 then s.disk[t] else ZeroBlock(), SlotOf(n).q, p, indirect)
    requires disk == s.TakeTable(Double, p1).TakeEntry(p2, dindirect).Write(t, indirect).disk
    ensures DoubleWritten(s.disk, s.din, n, p1, p2, p, disk) && OtherTablesKept(s.disk, s.own, n, disk)
    ensures Kept(s.disk, s.used, s.own, disk)
  {
    var u := if p1 == 0 then s.din.iDindirect else p1;
    assert p1 == 0 ==> u in s.own && s.own[u] == Double;
    assert p2 == 0 ==> t in s.own && s.own[t] == SlotOf(n).Parent();
    assert t != u;
    assert forall b :: 0 <= b < DEVICE_BLOCKS && b != t && b != u ==> disk[b] == s.disk[b];
  }

  lemma DoubleGrown(s: State, n: nat, p1: nat, p2: nat, p: nat, dindirect: Block, t: nat, indirect: Block, r: State)
    requires s.Sound() && DOUBLE_START <= n < MAX_FILE_BLOCKS
    requires DoubleFits(s.disk, s.din, s.own, n, p1, p2, p) && p !in s.used
    requires DoubleTaken(s, n, p1, p2, dindirect, t)
    requires IsPut(if p2 == 0 then s.disk[t] else ZeroBlock(), SlotOf(n).q, p, indirect)
    requires r == s.TakeTable(Double, p1).TakeEntry(p2, dindirect).Take(p).Write(t, indirect).(
                    own := DoubleOwn(s.own, n, p1, p2, p))
    ensures IsTree(r.disk, r.din, r.own) && Grown(s.disk, s.din, s.own, r.disk, r.din, r.own, n)
    ensures Kept(s.disk, s.used, s.own, r.disk)
  {
    DoubleDisk(s, n, p1, p2, p, dindirect, t, indirect, r.disk);
    GrowDouble(s.disk, s.din, s.own, n, p1, p2, p, r.disk, r.din);
  }

  lemma DoubleCounts(s: State, n: nat, p1: nat, p2: nat, p: nat, dindirect: Block, t: nat, indirect: Block, r: State)
    requires |s.disk| == DEVICE_BLOCKS && DOUBLE_START <= n < MAX_FILE_BLOCKS &&
             DoubleFits(s.disk, s.din, s.own, n, p1, p2, p)
    requires p2 != 0 ==> 0 <= AttachInode0(s.din, Double, p1).iDindirect < DEVICE_BLOCKS
    requires t < DEVICE_BLOCKS
    requires r == s.TakeTable(Double, p1).TakeEntry(p2, dindirect).Take(p).Write(t, indirect).(
                    own := DoubleOwn(s.own, n, p1, p2, p))
    ensures r.used == s.used + (if p1 == 0 then {} else {p1}) + (if p2 == 0 then {} else {p2}) + {p}
    ensures r.sb == s.sb.(usedBlockCount := s.sb.usedBlockCount + Need(s.disk, s.din, n))
    ensures r.din.blockCount == s.din.blockCount + Need(s.disk, s.din, n) && r.din.iSize == s.din.iSize &&
            r.din.iType == s.din.iType
    ensures r.own == DoubleOwn(s.own, n, p1, p2, p)
    ensures Need(s.disk, s.din, n) == 1 + (if p1 == 0 then 0 else 1) + (if p2 == 0 then 0 else 1)
  {
  }

  lemma DoubleOwned(used: set<int>, own: map<int, Slot>, n: nat, p1: nat, p2: nat, p: nat)
    requires DOUBLE_START <= n < MAX_FILE_BLOCKS && own.Keys <= used
    requires (p1 != 0 ==> p1 !in used) && (p2 != 0 ==> p2 !in used) && p !in used && p != 0
    ensures var own', used' := DoubleOwn(own, n, p1, p2, p),
            used + (if p1 == 0 then {} else {p1}) + (if p2 == 0 then {} else {p2}) + {p};
            own'.Keys <= used' && p in own' && own'[p] == SlotOf(n) && p !in own &&
            (forall b :: b in own' && b !in own ==> b !in used) && (forall b :: b in used' <==> b in used || b in own')
  {
    assert forall b :: b in own.Keys ==> b in used;
  }

  lemma MappedAllocated(s: State, n: nat, p: nat, r: State)
    requires n < MAX_FILE_BLOCKS && Room(s.sb) >= Need(s.disk, s.din, n) && p > 0 && Kept(s.disk, s.used, s.own, r.disk)
    requires IsTree(r.disk, r.din, r.own) && Grown(s.disk, s.din, s.own, r.disk, r.din, r.own, n)
    requires r.own.Keys <= r.used && p in r.own && r.own[p] == SlotOf(n) && p !in s.own
    requires (forall b :: b in r.own && b !in s.own ==> b !in s.used) &&
             (forall b :: b in r.used <==> b in s.used || b in r.own)
    requires |r.own| == |s.own| + Need(s.disk, s.din, n) && s.din.blockCount == |s.own|
    requires r.sb == s.sb.(usedBlockCount := s.sb.usedBlockCount + Need(s.disk, s.din, n))
    requires r.din.blockCount == s.din.blockCount + Need(s.disk, s.din, n) && r.din.iSize == s.din.iSize &&
             r.din.iType == s.din.iType
    ensures Allocated(s, n, p, r)
  {
  }

  lemma DoubleMapped(s: State, n: nat, p1: nat, p2: nat, p: nat, dindirect: Block, t: nat, indirect: Block, r: State)
    requires s.Sound() && DOUBLE_START <= n < MAX_FILE_BLOCKS && Room(s.sb) >= Need(s.disk, s.din, n)
    requires DoubleFits(s.disk, s.din, s.own, n, p1, p2, p) && p !in s.used
    requires DoubleTaken(s, n, p1, p2, dindirect, t)
    requires IsPut(if p2 == 0 then s.disk[t] else ZeroBlock(), SlotOf(n).q, p, indirect)
    requires r == s.TakeTable(Double, p1).TakeEntry(p2, dindirect).Take(p).Write(t, indirect).(
                    own := DoubleOwn(s.own, n, p1, p2, p))
    ensures Allocated(s, n, p, r)
  {
    hide Allocated;
    hide IsTree;
    hide Grown;
    hide Kept;
    hide IsPut;
    hide Room;
    hide Need;
    hide DoubleOwn;
    hide State.TakeTable;
    hide State.TakeEntry;
    hide State.Take;
    hide State.Write;
    DoubleGrown(s, n, p1, p2, p, dindirect, t, indirect, r);
    DoubleCounts(s, n, p1, p2, p, dindirect, t, indirect, r);
    DoubleOwned(s.used, s.own, n, p1, p2, p);
    DoubleSize(s.own, n, p1, p2, p);
    MappedAllocated(s, n, p, r);
  }

  lemma DoubleSize(own: map<int, Slot>, n: nat, p1: nat, p2: nat, p: nat)
    requires DOUBLE_START <= n < MAX_FILE_BLOCKS
    requires (p1 != 0 ==> p1 !in own) && (p2 != 0 ==> p2 !in own && p2 != p1)
    requires p != 0 && p !in own && p != p1 && p != p2
    ensures |DoubleOwn(own, n, p1, p2, p)| == |own| + 1 + (if p1 == 0 then 0 else 1) + (if p2 == 0 then 0 else 1)
  {
    OwnSizes(own, p1, Double, p2, SlotOf(n).Parent(), p, SlotOf(n));
  }

  lemma OwnSize(own: map<int, Slot>, p: nat, s: Slot)
    requires p != 0 ==> p !in own
    ensures |Own(own, p, s)| == |own| + (if p == 0 then 0 else 1)
  {
    if p != 0 {
      assert own[p := s].Keys == own.Keys + {p};
    }
  }

  lemma OwnSizes(own: map<int, Slot>, p1: nat, s1: Slot, p2: nat, s2: Slot, p: nat, s: Slot)
    requires (p1 != 0 ==> p1 !in own) && (p2 != 0 ==> p2 !in own && p2 != p1)
    requires p != 0 && p !in own && p != p1 && p != p2
    ensures |Own(Own(own, p1, s1), p2, s2)[p := s]| ==
              |own| + 1 + (if p1 == 0 then 0 else 1) + (if p2 == 0 then 0 else 1)
  {
    OwnSize(own, p1, s1);
    OwnSize(Own(own, p1, s1), p2, s2);
    OwnSize(Own(Own(own, p1, s1), p2, s2), p, s);
  }

  lemma IndirectMapped(s: State, n: nat, p1: nat, p: nat, block: Block, t: State)
    requires s.Sound() && NR_DIRECT_BLOCKS <= n < DOUBLE_START && PhysicalBlock(s.disk, s.din, n) == 0
    requires Fits(s.disk, s.din, s.own, Indirect, p1) && p1 !in s.used
    requires DATA_BLOCKS_START <= p < DEVICE_BLOCKS && p !in s.used && p != p1
    requires Room(s.sb) >= if p1 == 0 then 1 else 2
    requires var i := if p1 == 0 then s.din.iIndirect else p1;
             0 < i < DEVICE_BLOCKS &&
             IsPut(if p1 == 0 then s.disk[i] else ZeroBlock(), n - NR_DIRECT_BLOCKS, p, block) &&
             t == s.TakeTable(Indirect, p1).Take(p).Write(i, block).(
                    own := Own(s.own, p1, Indirect)[p := IndirectEntry(n - NR_DIRECT_BLOCKS)])
    ensures Allocated(s, n, p, t)
  {
    GrowIndirect(s.disk, s.din, s.own, n, p1, p, t.disk, t.din);
    OwnSizes(s.own, p1, Indirect, 0, Indirect, p, SlotOf(n));
  }

  lemma IndirectDropped(s: State, n: nat, p1: nat, t: State)
    requires s.Sound() && NR_DIRECT_BLOCKS <= n < DOUBLE_START && PhysicalBlock(s.disk, s.din, n) == 0
    requires Fits(s.disk, s.din, s.own, Indirect, p1) && p1 != 0 && p1 !in s.used
    requires Room(s.sb) == 1 && t == s.TakeTable(Indirect, p1).Drop(p1)
    ensures Allocated(s, n, -ENOSPC, t)
  {
    PointerRange(s.disk, s.din, s.own, n);
    GrownTable(s.disk, s.din, s.own, Indirect, p1, n, t.disk, t.din);
    assert t.used == s.used;
  }

  /** Every pointer on the path to logical block n is 0 or the number of a block of the device. */
  lemma PointerRange(disk: seq<Block>, d: DInode, own: map<int, Slot>, n: nat)
    requires IsTree(disk, d, own) && n < MAX_FILE_BLOCKS
    ensures 0 <= d.iIndirect < |disk| && 0 <= d.iDindirect < |disk|
    ensures d.iIndirect != 0 ==> d.iIndirect >= DATA_BLOCKS_START
    ensures d.iDindirect != 0 ==> d.iDindirect >= DATA_BLOCKS_START
    ensures 0 <= PhysicalBlock(disk, d, n) < |disk| &&
            (PhysicalBlock(disk, d, n) != 0 ==> PhysicalBlock(disk, d, n) >= DATA_BLOCKS_START)
    ensures n >= NR_DIRECT_BLOCKS ==>
              var t := Ptr(disk, d, SlotOf(n).Parent());
              0 <= t < |disk| && (t != 0 ==> t >= DATA_BLOCKS_START)
  {
    assert Ptr(disk, d, Indirect) == d.iIndirect && Ptr(disk, d, Double) == d.iDindirect;
    var s := SlotOf(n);
    assert Ptr(disk, d, s) != 0 ==> Ptr(disk, d, s) in own;
    if n >= NR_DIRECT_BLOCKS {
      assert Ptr(disk, d, s.Parent()) != 0 ==> Ptr(disk, d, s.Parent()) in own;
    }
  }
}
