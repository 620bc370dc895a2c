/** fs/super.c and fs/block.c: the device, the super block, and the two write-through freemaps. */
module Super {
  import opened Bytes
  import opened Bitmaps
  import opened Bits

  const SUPER_BLOCK_SIZE: nat := 1
  const INODE_FREEMAP_SIZE: nat := 1
  const BLOCK_FREEMAP_SIZE: nat := 16
  const NR_INODE_BLOCKS: nat := 128

  // The layout that testfs_make_super_block chooses.
  const INODE_FREEMAP_START: nat := SUPER_BLOCK_SIZE
  const BLOCK_FREEMAP_START: nat := INODE_FREEMAP_START + INODE_FREEMAP_SIZE
  const INODE_BLOCKS_START: nat := BLOCK_FREEMAP_START + BLOCK_FREEMAP_SIZE
  const DATA_BLOCKS_START: nat := INODE_BLOCKS_START + NR_INODE_BLOCKS

  const NR_INODE_BITS: nat := BLOCK_SIZE * INODE_FREEMAP_SIZE * BITS_PER_WORD
  const NR_BLOCK_BITS: nat := BLOCK_SIZE * BLOCK_FREEMAP_SIZE * BITS_PER_WORD
  const DEVICE_BLOCKS: nat := DATA_BLOCKS_START + NR_BLOCK_BITS

  datatype DSuperBlock = DSuperBlock(
    inodeFreemapStart: int, blockFreemapStart: int, inodeBlocksStart: int, dataBlocksStart: int,
    usedInodeCount: int, usedBlockCount: int, maxFsBlocks: int)
  {
    /** The layout is the standard one and every field fits its C type. */
    predicate WellFormed() {
      inodeFreemapStart == INODE_FREEMAP_START && blockFreemapStart == BLOCK_FREEMAP_START &&
      inodeBlocksStart == INODE_BLOCKS_START && dataBlocksStart == DATA_BLOCKS_START &&
      0 <= usedInodeCount <= NR_INODE_BITS && 0 <= usedBlockCount <= NR_BLOCK_BITS &&
      0 <= maxFsBlocks < 0x1_0000_0000_0000_0000
    }

    function Words(): seq<int> {
      [inodeFreemapStart, blockFreemapStart, inodeBlocksStart, dataBlocksStart,
       usedInodeCount, usedBlockCount, maxFsBlocks % 0x1_0000_0000, maxFsBlocks / 0x1_0000_0000]
    }

    function Encode(): Block {
      EncodeWords(Words()) + ZeroBlock()[32..]
    }
  }

  function DecodeSuper(b: Block): DSuperBlock {
    DSuperBlock(UWord(b, 0), UWord(b, 1), UWord(b, 2), UWord(b, 3), UWord(b, 4), UWord(b, 5),
                UWord(b, 6) + 0x1_0000_0000 * UWord(b, 7))
  }

  lemma SuperRoundTrip(s: DSuperBlock)
    requires s.WellFormed()
    ensures DecodeSuper(s.Encode()) == s
  {
    SuperWord(s, 0);
    SuperWord(s, 1);
    SuperWord(s, 2);
    SuperWord(s, 3);
    SuperWord(s, 4);
    SuperWord(s, 5);
    SuperWord(s, 6);
    SuperWord(s, 7);
  }

  lemma SuperWord(s: DSuperBlock, k: nat)
    requires s.WellFormed() && k < 8
    ensures UWord(s.Encode(), k) == s.Words()[k]
  {
    EncodeThenWord(s.Words(), k);
  }

  lemma ZeroBehind(s: DSuperBlock)
    requires s.WellFormed()
    ensures forall j :: 32 <= j < BLOCK_SIZE ==> s.Encode()[j] == 0
  {
    hide EncodeWords;
    assert |EncodeWords(s.Words())| == 32;
  }

  /** Where the fields lie in block 0: 32-bit words in the order of the struct, then the 64-bit limit with its low word
      first, and zeros behind it. */
  lemma SuperFields(s: DSuperBlock)
    requires s.WellFormed()
    ensures UWord(s.Encode(), 0) == s.inodeFreemapStart == 1
    ensures UWord(s.Encode(), 1) == s.blockFreemapStart == 2
    ensures UWord(s.Encode(), 2) == s.inodeBlocksStart == 18
    ensures UWord(s.Encode(), 3) == s.dataBlocksStart == 146
    ensures UWord(s.Encode(), 4) == s.usedInodeCount
    ensures UWord(s.Encode(), 5) == s.usedBlockCount
    ensures UWord(s.Encode(), 6) + 0x1_0000_0000 * UWord(s.Encode(), 7) == s.maxFsBlocks
    ensures forall j :: 32 <= j < BLOCK_SIZE ==> s.Encode()[j] == 0
  {
    hide UWord;
    hide EncodeWords;
    hide DSuperBlock.Encode;
    SuperWord(s, 0);
    SuperWord(s, 1);
    SuperWord(s, 2);
    SuperWord(s, 3);
    SuperWord(s, 4);
    SuperWord(s, 5);
    SuperWord(s, 6);
    SuperWord(s, 7);
    ZeroBehind(s);
  }

  /** How many more block allocations will succeed. */
  function Room(s: DSuperBlock): int {
    (if s.maxFsBlocks < NR_BLOCK_BITS then s.maxFsBlocks else NR_BLOCK_BITS) - s.usedBlockCount
  }

  /** The device copy, from block start on, of byte j of a freemap. */
  function DeviceByte(disk: seq<Block>, start: nat, j: nat): Byte
    requires start + j / BLOCK_SIZE < |disk|
  {
    disk[start + j / BLOCK_SIZE][j % BLOCK_SIZE]
  }

  /** The bytes v of a freemap are what the device holds from block start on. */
  ghost predicate OnDisk(v: seq<Byte>, disk: seq<Block>, start: nat)
    requires start + (|v| + BLOCK_SIZE - 1) / BLOCK_SIZE <= |disk|
  {
    forall j :: 0 <= j < |v| ==> DeviceByte(disk, start, j) == v[j]
  }

  lemma OnDiskFrame(v: seq<Byte>, disk: seq<Block>, start: nat, disk': seq<Block>)
    requires |disk| == |disk'| && start + (|v| + BLOCK_SIZE - 1) / BLOCK_SIZE <= |disk|
    requires forall b :: start <= b < start + (|v| + BLOCK_SIZE - 1) / BLOCK_SIZE ==> disk'[b] == disk[b]
    requires OnDisk(v, disk, start)
    ensures OnDisk(v, disk', start)
  {
    forall j | 0 <= j < |v| ensures DeviceByte(disk', start, j) == v[j] {
      assert DeviceByte(disk, start, j) == v[j];
    }
  }

  /** The freemap bit of physical block b is in bits. */
  ghost predicate BitOf(bits: set<int>, b: int) {
    b >= DATA_BLOCKS_START && b - DATA_BLOCKS_START in bits
  }

  ghost function Physical(bits: set<int>): set<int> {
    set b | 0 <= b < DEVICE_BLOCKS && BitOf(bits, b)
  }

  lemma PhysicalOne(bits: set<int>, i: nat)
    requires i < NR_BLOCK_BITS && i in bits
    ensures |Physical(bits)| == |Physical(bits - {i})| + 1
  {
    var b := DATA_BLOCKS_START + i;
    assert BitOf(bits, b) && !BitOf(bits - {i}, b);
    forall c ensures c in Physical(bits) <==> c in Physical(bits - {i}) || c == b {
      assert c != b ==> (BitOf(bits, c) <==> BitOf(bits - {i}, c));
    }
    assert Physical(bits) == Physical(bits - {i}) + {b};
  }

  /** The physical block of the least free bit is the least free data block. */
  lemma LeastBlock(bits: set<int>, i: nat, used: set<int>)
    requires i !in bits && Full(bits, i) && forall b :: b in used <==> BitOf(bits, b)
    ensures DATA_BLOCKS_START + i !in used && forall b :: DATA_BLOCKS_START <= b < DATA_BLOCKS_START + i ==> b in used
    ensures forall b :: b in used + {DATA_BLOCKS_START + i} <==> BitOf(bits + {i}, b)
  {
    assert !BitOf(bits, DATA_BLOCKS_START + i);
    forall b | DATA_BLOCKS_START <= b < DATA_BLOCKS_START + i ensures b in used {
      assert b - DATA_BLOCKS_START in bits;
      assert BitOf(bits, b);
    }
  }

  lemma {:induction false} PhysicalSize(bits: set<int>, n: nat)
    requires n <= NR_BLOCK_BITS && forall i :: i in bits ==> 0 <= i < n
    ensures |Physical(bits)| == |bits|
  {
    if n == 0 {
      FullSize(bits, 0);
      assert forall b :: !BitOf(bits, b);
    } else if n - 1 in bits {
      PhysicalSize(bits - {n - 1}, n - 1);
      PhysicalOne(bits, n - 1);
    } else {
      PhysicalSize(bits, n - 1);
    }
  }

  /** Rewriting the one freemap block that holds byte k keeps the device copy equal to memory. */
  lemma WriteThrough(v: seq<Byte>, w: seq<Byte>, disk: seq<Block>, start: nat, k: nat, disk': seq<Block>)
    requires |v| == |w| && |v| % BLOCK_SIZE == 0 && k < |v|
    requires forall j :: 0 <= j < |v| && j != k ==> w[j] == v[j]
    requires start + |v| / BLOCK_SIZE <= |disk| && OnDisk(v, disk, start)
    requires var nr := k / BLOCK_SIZE;
             (nr + 1) * BLOCK_SIZE <= |w| && disk' == disk[start + nr := w[nr * BLOCK_SIZE..(nr + 1) * BLOCK_SIZE]]
    ensures OnDisk(w, disk', start)
  {
    forall j | 0 <= j < |w| ensures DeviceByte(disk', start, j) == w[j] {
      if j / BLOCK_SIZE != k / BLOCK_SIZE {
        assert DeviceByte(disk, start, j) == v[j] == w[j];
      }
    }
  }

  /** The bytes of an n-block freemap as the device holds them. */
  function FreemapBytes(disk: seq<Block>, start: nat, n: nat): (v: seq<Byte>)
    requires start + n <= |disk|
    ensures |v| == n * BLOCK_SIZE
  {
    seq(n * BLOCK_SIZE, j requires 0 <= j < n * BLOCK_SIZE => DeviceByte(disk, start, j))
  }

  /** A device that can be mounted: block 0 is a super block whose counters agree with the freemaps. */
  ghost predicate Image(disk: seq<Block>) {
    |disk| == DEVICE_BLOCKS &&
    var s := DecodeSuper(disk[0]);
    s.WellFormed() && disk[0] == s.Encode() &&
    s.usedInodeCount == |SetBits(FreemapBytes(disk, INODE_FREEMAP_START, INODE_FREEMAP_SIZE), NR_INODE_BITS)| &&
    s.usedBlockCount == |SetBits(FreemapBytes(disk, BLOCK_FREEMAP_START, BLOCK_FREEMAP_SIZE),
                                 NR_BLOCK_BITS)| <= s.maxFsBlocks
  }

  lemma OnDiskBytes(v: seq<Byte>, disk: seq<Block>, start: nat, n: nat)
    requires start + n <= |disk| && |v| == n * BLOCK_SIZE && OnDisk(v, disk, start)
    ensures v == FreemapBytes(disk, start, n)
  {
    forall j | 0 <= j < |v| ensures v[j] == FreemapBytes(disk, start, n)[j] {
      assert DeviceByte(disk, start, j) == v[j];
    }
  }

  lemma LoadedOnDisk(disk: seq<Block>, start: nat, n: nat)
    requires start + n <= |disk|
    ensures OnDisk(FreemapBytes(disk, start, n), disk, start)
  {
  }

  class SuperBlock {
    var sb: DSuperBlock
    var disk: seq<Block>
    const inodeFreemap: Bitmap
    const blockFreemap: Bitmap
    /** The physical block numbers whose freemap bit is set. */
    ghost var used: set<int>
    /** The device without the super block and the freemaps, which the operations below keep to themselves. */
    ghost var data: seq<Block>

    /** What holds even in the middle of an operation: the freemaps are well formed and equal to their device copies. */
    ghost predicate Base()
      reads this, inodeFreemap, blockFreemap, inodeFreemap.v, blockFreemap.v
    {
      |disk| == DEVICE_BLOCKS && sb.WellFormed() &&
      inodeFreemap != blockFreemap && inodeFreemap.v != blockFreemap.v &&
      inodeFreemap.Valid() && inodeFreemap.nbits == NR_INODE_BITS &&
      blockFreemap.Valid() && blockFreemap.nbits == NR_BLOCK_BITS &&
      OnDisk(inodeFreemap.v[..], disk, INODE_FREEMAP_START) &&
      OnDisk(blockFreemap.v[..], disk, BLOCK_FREEMAP_START)
    }

    /** The counters equal the number of set bits, the limit is kept, and the device copy of the super block is up to
        date. */
    ghost predicate Valid()
      reads this, inodeFreemap, blockFreemap, inodeFreemap.v, blockFreemap.v
    {
      Base() &&
      sb.usedInodeCount == |inodeFreemap.bits| &&
      sb.usedBlockCount == |blockFreemap.bits| <= sb.maxFsBlocks &&
      |data| == DEVICE_BLOCKS && (forall b :: INODE_BLOCKS_START <= b < DEVICE_BLOCKS ==> data[b] == disk[b]) &&
      (forall b :: b in used <==> BitOf(blockFreemap.bits, b)) && |used| == sb.usedBlockCount &&
      disk[0] == sb.Encode()
    }

    /** testfs_init_super_block: reads the freemaps. */
    method ReadFreemaps(image: seq<Block>)
      requires Image(image) && disk == image && sb == DecodeSuper(image[0])
      requires inodeFreemap != blockFreemap && inodeFreemap.v != blockFreemap.v
      requires inodeFreemap.Valid() && inodeFreemap.nbits == NR_INODE_BITS && blockFreemap.Valid() &&
               blockFreemap.nbits == NR_BLOCK_BITS
      modifies this`used, this`data, inodeFreemap`bits, inodeFreemap.v, blockFreemap`bits, blockFreemap.v
      ensures Valid() && data == image
      ensures inodeFreemap.v[..] == FreemapBytes(image, INODE_FREEMAP_START, INODE_FREEMAP_SIZE)
      ensures blockFreemap.v[..] == FreemapBytes(image, BLOCK_FREEMAP_START, BLOCK_FREEMAP_SIZE)
    {
      hide FreemapBytes;
      hide SetBits;
      hide OnDisk;
      inodeFreemap.Load(FreemapBytes(image, INODE_FREEMAP_START, INODE_FREEMAP_SIZE));
      blockFreemap.Load(FreemapBytes(image, BLOCK_FREEMAP_START, BLOCK_FREEMAP_SIZE));
      LoadedOnDisk(image, INODE_FREEMAP_START, INODE_FREEMAP_SIZE);
      LoadedOnDisk(image, BLOCK_FREEMAP_START, BLOCK_FREEMAP_SIZE);
      used := Physical(blockFreemap.bits);
      PhysicalSize(blockFreemap.bits, NR_BLOCK_BITS);
      data := image;
    }

    /** testfs_init_super_block: mounts a device. */
    constructor (image: seq<Block>)
      requires Image(image)
      ensures Valid() && fresh(inodeFreemap) && fresh(inodeFreemap.v) && fresh(blockFreemap) && fresh(blockFreemap.v)
      ensures disk == data == image && sb == DecodeSuper(image[0])
      ensures inodeFreemap.v[..] == FreemapBytes(image, INODE_FREEMAP_START, INODE_FREEMAP_SIZE)
      ensures blockFreemap.v[..] == FreemapBytes(image, BLOCK_FREEMAP_START, BLOCK_FREEMAP_SIZE)
    {
      hide SuperBlock.Valid;
      hide FreemapBytes;
      disk := image;
      sb := DecodeSuper(image[0]);
      inodeFreemap := new Bitmap(NR_INODE_BITS);
      blockFreemap := new Bitmap(NR_BLOCK_BITS);
      new;
      ReadFreemaps(image);
    }

    /** testfs_close_super_block: the final write-back changes nothing, because every operation wrote its changes
        through. */
    method Close()
      requires Valid()
      modifies this`disk
      ensures Valid() && disk == old(disk) && Image(disk)
      ensures DecodeSuper(disk[0]) == sb
      ensures FreemapBytes(disk, INODE_FREEMAP_START, INODE_FREEMAP_SIZE) == inodeFreemap.v[..]
      ensures FreemapBytes(disk, BLOCK_FREEMAP_START, BLOCK_FREEMAP_SIZE) == blockFreemap.v[..]
    {
      WriteSuperBlock();
      WriteBlocks(inodeFreemap.v, INODE_FREEMAP_START, INODE_FREEMAP_SIZE);
      WriteBlocks(blockFreemap.v, BLOCK_FREEMAP_START, BLOCK_FREEMAP_SIZE);
      SuperRoundTrip(sb);
      inodeFreemap.BitsAreSetBits();
      blockFreemap.BitsAreSetBits();
      OnDiskBytes(inodeFreemap.v[..], disk, INODE_FREEMAP_START, INODE_FREEMAP_SIZE);
      OnDiskBytes(blockFreemap.v[..], disk, BLOCK_FREEMAP_START, BLOCK_FREEMAP_SIZE);
    }

    /** write_blocks of a whole freemap */
    method WriteBlocks(v: array<Byte>, start: nat, n: nat)
      requires v.Length == n * BLOCK_SIZE && start + n <= |disk| && OnDisk(v[..], disk, start)
      modifies this`disk
      ensures disk == old(disk)
    {
      var i := 0;
      while i < n
        invariant i <= n && disk == old(disk)
      {
        ghost var b := v[i * BLOCK_SIZE..(i + 1) * BLOCK_SIZE];
        assert b == disk[start + i] by {
          forall j | 0 <= j < BLOCK_SIZE ensures b[j] == disk[start + i][j] {
            assert DeviceByte(disk, start, i * BLOCK_SIZE + j) == v[..][i * BLOCK_SIZE + j];
          }
        }
        disk := disk[start + i := v[i * BLOCK_SIZE..(i + 1) * BLOCK_SIZE]];
        i := i + 1;
      }
    }

    /** testfs_write_super_block */
    method WriteSuperBlock()
      requires Base()
      modifies this`disk
      ensures Base() && disk == old(disk)[0 := sb.Encode()]
    {
      disk := disk[0 := sb.Encode()];
      OnDiskFrame(inodeFreemap.v[..], old(disk), INODE_FREEMAP_START, disk);
      OnDiskFrame(blockFreemap.v[..], old(disk), BLOCK_FREEMAP_START, disk);
    }

    /** A new value for the block counter, written through. */
    method SetUsedBlocks(n: nat)
      requires Base() && n <= NR_BLOCK_BITS
      modifies this`sb, this`disk
      ensures Base() && sb == old(sb).(usedBlockCount := n) && disk == old(disk)[0 := sb.Encode()]
    {
      sb := sb.(usedBlockCount := n);
      WriteSuperBlock();
    }

    /** A new value for the inode counter, written through. */
    method SetUsedInodes(n: nat)
      requires Base() && n <= NR_INODE_BITS
      modifies this`sb, this`disk
      ensures Base() && sb == old(sb).(usedInodeCount := n) && disk == old(disk)[0 := sb.Encode()]
    {
      sb := sb.(usedInodeCount := n);
      WriteSuperBlock();
    }

    /** testfs_get_block_freemap, with testfs_write_block_freemap */
    method GetBlockFreemap() returns (ret: int)
      requires Base()
      modifies this`disk, blockFreemap, blockFreemap.v
      ensures Base()
      ensures ret >= 0 || ret == -ENOSPC
      ensures ret >= 0 <==> !Full(old(blockFreemap.bits), NR_BLOCK_BITS)
      ensures ret >= 0 ==>
                ret < NR_BLOCK_BITS && ret !in old(blockFreemap.bits) && Full(old(blockFreemap.bits), ret) &&
                blockFreemap.bits == old(blockFreemap.bits) + {ret}
      ensures ret < 0 ==>
                disk == old(disk) && blockFreemap.v[..] == old(blockFreemap.v[..]) &&
                blockFreemap.bits == old(blockFreemap.bits)
      ensures disk[0] == old(disk[0])
      ensures forall b :: INODE_BLOCKS_START <= b < DEVICE_BLOCKS ==> disk[b] == old(disk[b])
    {
      ghost var v0 := blockFreemap.v[..];
      var index;
      ret, index := blockFreemap.Alloc();
      if ret < 0 {
        return;
      }
      WriteBlockFreemap(index, v0);
      return index;
    }

    /** testfs_write_block_freemap, after a change to the bit of index that v0 does not have yet */
    method WriteBlockFreemap(index: nat, ghost v0: seq<Byte>)
      requires |disk| == DEVICE_BLOCKS && sb.WellFormed()
      requires blockFreemap.Valid() && blockFreemap.nbits == NR_BLOCK_BITS && index < NR_BLOCK_BITS
      requires inodeFreemap != blockFreemap && inodeFreemap.v != blockFreemap.v && inodeFreemap.Valid() &&
               inodeFreemap.nbits == NR_INODE_BITS
      requires OnDisk(inodeFreemap.v[..], disk, INODE_FREEMAP_START)
      requires |v0| == blockFreemap.v.Length && OnDisk(v0, disk, BLOCK_FREEMAP_START)
      requires forall j :: 0 <= j < |v0| && j != index / BITS_PER_WORD ==> blockFreemap.v[j] == v0[j]
      modifies this`disk
      ensures Base()
      ensures forall b :: 0 <= b < DEVICE_BLOCKS && (b < BLOCK_FREEMAP_START || b >= INODE_BLOCKS_START) ==>
                disk[b] == old(disk[b])
    {
      var nr := index / (BLOCK_SIZE * BITS_PER_WORD);
      disk := disk[sb.blockFreemapStart + nr := blockFreemap.v[nr * BLOCK_SIZE..(nr + 1) * BLOCK_SIZE]];
      WriteThrough(v0, blockFreemap.v[..], old(disk), BLOCK_FREEMAP_START, index / BITS_PER_WORD, disk);
      OnDiskFrame(inodeFreemap.v[..], old(disk), INODE_FREEMAP_START, disk);
    }

    /** write_blocks of one block past the freemaps */
    method WriteBlock(b: nat, block: Block)
      requires Valid() && INODE_BLOCKS_START <= b < DEVICE_BLOCKS
      modifies this`disk, this`data
      ensures Valid() && disk == old(disk)[b := block] && data == old(data)[b := block]
    {
      disk := disk[b := block];
      data := data[b := block];
      OnDiskFrame(inodeFreemap.v[..], old(disk), INODE_FREEMAP_START, disk);
      OnDiskFrame(blockFreemap.v[..], old(disk), BLOCK_FREEMAP_START, disk);
    }

    /** testfs_alloc_block */
    method AllocBlock() returns (ret: int)
      requires Valid()
      modifies this, blockFreemap, blockFreemap.v
      ensures Valid()
      ensures ret > 0 || ret == -ENOSPC
      ensures ret > 0 <==> Room(old(sb)) > 0
      ensures ret > 0 ==> DATA_BLOCKS_START <= ret < DEVICE_BLOCKS && ret !in old(used) && used == old(used) + {ret}
      ensures ret > 0 ==> forall b :: DATA_BLOCKS_START <= b < ret ==> b in old(used)
      ensures ret > 0 ==> sb == old(sb).(usedBlockCount := old(sb).usedBlockCount + 1)
      ensures ret < 0 ==>
                sb == old(sb) && disk == old(disk) && used == old(used) && blockFreemap.bits == old(blockFreemap.bits)
      ensures data == old(data)
      ensures inodeFreemap.bits == old(inodeFreemap.bits)
    {
      hide Full;
      hide BitOf;
      hide SetBits;
      hide DSuperBlock.Encode;
      FullSize(blockFreemap.bits, NR_BLOCK_BITS);
      if sb.usedBlockCount >= sb.maxFsBlocks {
        return -ENOSPC;
      }
      ret := GetBlockFreemap();
      if ret < 0 {
        return;
      }
      SetUsedBlocks(sb.usedBlockCount + 1);
      ret := sb.dataBlocksStart + ret;
      LeastBlock(old(blockFreemap.bits), ret - DATA_BLOCKS_START, used);
      used := used + {ret};
    }

    /** testfs_free_block */
    method FreeBlock(blockNr: nat)
      requires Valid() && blockNr in used
      modifies this, blockFreemap, blockFreemap.v
      ensures Valid()
      ensures used == old(used) - {blockNr}
      ensures sb == old(sb).(usedBlockCount := old(sb).usedBlockCount - 1)
      ensures data == old(data)[blockNr := ZeroBlock()]
      ensures inodeFreemap.bits == old(inodeFreemap.bits)
    {
      hide OnDisk;
      ghost var v0 := blockFreemap.v[..];
      disk, data, used := disk[blockNr := ZeroBlock()], data[blockNr := ZeroBlock()], used - {blockNr};
      OnDiskFrame(inodeFreemap.v[..], old(disk), INODE_FREEMAP_START, disk);
      OnDiskFrame(v0, old(disk), BLOCK_FREEMAP_START, disk);
      var nr := blockNr - sb.dataBlocksStart;
      assert BitOf(blockFreemap.bits, blockNr);
      blockFreemap.Unmark(nr);
      WriteBlockFreemap(nr, v0);
      SetUsedBlocks(sb.usedBlockCount - 1);
    }

    /** testfs_get_inode_freemap */
    method GetInodeFreemap() returns (ret: int)
      requires Valid()
      modifies this`sb, this`disk, inodeFreemap, inodeFreemap.v
      ensures Valid()
      ensures ret >= 0 || ret == -ENOSPC
      ensures ret >= 0 <==> !Full(old(inodeFreemap.bits), NR_INODE_BITS)
      ensures ret >= 0 ==>
                ret < NR_INODE_BITS && ret !in old(inodeFreemap.bits) && Full(old(inodeFreemap.bits), ret) &&
                inodeFreemap.bits == old(inodeFreemap.bits) + {ret}
      ensures ret >= 0 ==> sb == old(sb).(usedInodeCount := old(sb).usedInodeCount + 1)
      ensures ret < 0 ==> sb == old(sb) && disk == old(disk) && inodeFreemap.bits == old(inodeFreemap.bits)
      ensures forall b :: INODE_BLOCKS_START <= b < DEVICE_BLOCKS ==> disk[b] == old(disk[b])
    {
      ghost var v0 := inodeFreemap.v[..];
      var index;
      ret, index := inodeFreemap.Alloc();
      if ret < 0 {
        return;
      }
      WriteInodeFreemap(index, v0);
      FullSize(inodeFreemap.bits, NR_INODE_BITS);
      SetUsedInodes(sb.usedInodeCount + 1);
      return index;
    }

    /** testfs_write_inode_freemap, after a change to the bit of index that v0 does not have yet */
    method WriteInodeFreemap(index: nat, ghost v0: seq<Byte>)
      requires |disk| == DEVICE_BLOCKS && sb.WellFormed()
      requires inodeFreemap.Valid() && inodeFreemap.nbits == NR_INODE_BITS && index < NR_INODE_BITS
      requires inodeFreemap != blockFreemap && inodeFreemap.v != blockFreemap.v && blockFreemap.Valid() &&
               blockFreemap.nbits == NR_BLOCK_BITS
      requires OnDisk(blockFreemap.v[..], disk, BLOCK_FREEMAP_START)
      requires |v0| == inodeFreemap.v.Length && OnDisk(v0, disk, INODE_FREEMAP_START)
      requires forall j :: 0 <= j < |v0| && j != index / BITS_PER_WORD ==> inodeFreemap.v[j] == v0[j]
      modifies this`disk
      ensures Base()
      ensures forall b :: 0 <= b < DEVICE_BLOCKS && b != INODE_FREEMAP_START ==> disk[b] == old(disk[b])
    {
      var nr := index / (BLOCK_SIZE * BITS_PER_WORD);
      disk := disk[sb.inodeFreemapStart + nr := inodeFreemap.v[nr * BLOCK_SIZE..(nr + 1) * BLOCK_SIZE]];
      WriteThrough(v0, inodeFreemap.v[..], old(disk), INODE_FREEMAP_START, index / BITS_PER_WORD, disk);
      OnDiskFrame(blockFreemap.v[..], old(disk), BLOCK_FREEMAP_START, disk);
    }

    /** testfs_put_inode_freemap */
    method PutInodeFreemap(inodeNr: nat)
      requires Valid() && inodeNr in inodeFreemap.bits
      modifies this`sb, this`disk, inodeFreemap, inodeFreemap.v
      ensures Valid()
      ensures inodeFreemap.bits == old(inodeFreemap.bits) - {inodeNr}
      ensures sb == old(sb).(usedInodeCount := old(sb).usedInodeCount - 1)
      ensures forall b :: INODE_BLOCKS_START <= b < DEVICE_BLOCKS ==> disk[b] == old(disk[b])
    {
      ghost var v0 := inodeFreemap.v[..];
      inodeFreemap.Unmark(inodeNr);
      WriteInodeFreemap(inodeNr, v0);
      assert sb.usedInodeCount > 0;
      SetUsedInodes(sb.usedInodeCount - 1);
    }
  }

  /** The super block of a new file system: the standard layout, nothing in use, and the limit */
  function NewSuper(maxFsBlocks: nat): DSuperBlock {
    DSuperBlock(INODE_FREEMAP_START, BLOCK_FREEMAP_START, INODE_BLOCKS_START, DATA_BLOCKS_START, 0, 0, maxFsBlocks)
  }

  /** A device with a new file system: behind the super block, the freemaps and the inode blocks are zero. */
  ghost predicate Made(disk: seq<Block>, maxFsBlocks: nat) {
    |disk| == DEVICE_BLOCKS && disk[0] == NewSuper(maxFsBlocks).Encode() &&
    forall b :: INODE_FREEMAP_START <= b < DATA_BLOCKS_START ==> disk[b] == ZeroBlock()
  }

  /** zero_blocks */
  method ZeroBlocks(disk: seq<Block>, start: nat, n: nat) returns (r: seq<Block>)
    requires start + n <= |disk|
    ensures |r| == |disk| && forall b :: 0 <= b < |disk| ==>
              r[b] == if start <= b < start + n then ZeroBlock() else disk[b]
  {
    r := disk;
    var i := 0;
    while i < n
      invariant i <= n && |r| == |disk|
      invariant forall b :: 0 <= b < |disk| ==> r[b] == if start <= b < start + i then ZeroBlock() else disk[b]
    {
      r := r[start + i := ZeroBlock()];
      i := i + 1;
    }
  }

  /** mktestfs: testfs_make_super_block, testfs_make_inode_freemap, testfs_make_block_freemap,
      testfs_make_inode_blocks */
  method Make(device: seq<Block>, maxFsBlocks: nat) returns (disk: seq<Block>)
    requires |device| == DEVICE_BLOCKS && maxFsBlocks < 0x1_0000_0000_0000_0000
    ensures Made(disk, maxFsBlocks) && Image(disk) && DecodeSuper(disk[0]) == NewSuper(maxFsBlocks)
    ensures forall b :: DATA_BLOCKS_START <= b < DEVICE_BLOCKS ==> disk[b] == device[b]
  {
    disk := device[0 := NewSuper(maxFsBlocks).Encode()];
    disk := ZeroBlocks(disk, INODE_FREEMAP_START, INODE_FREEMAP_SIZE);
    disk := ZeroBlocks(disk, BLOCK_FREEMAP_START, BLOCK_FREEMAP_SIZE);
    disk := ZeroBlocks(disk, INODE_BLOCKS_START, NR_INODE_BLOCKS);
    MadeImage(disk, maxFsBlocks);
  }

  lemma NoBits(v: seq<Byte>, nbits: nat)
    requires nbits <= |v| * BITS_PER_WORD && forall j :: 0 <= j < |v| ==> v[j] == 0
    ensures SetBits(v, nbits) == {}
  {
    forall i | 0 <= i < nbits ensures !BitAt(v, i) {
      ZeroHasNoBit(i % BITS_PER_WORD);
    }
  }

  /** A new file system can be mounted, and has no inode and no block in use. */
  lemma MadeImage(disk: seq<Block>, maxFsBlocks: nat)
    requires Made(disk, maxFsBlocks) && maxFsBlocks < 0x1_0000_0000_0000_0000
    ensures Image(disk) && DecodeSuper(disk[0]) == NewSuper(maxFsBlocks)
    ensures SetBits(FreemapBytes(disk, INODE_FREEMAP_START, INODE_FREEMAP_SIZE), NR_INODE_BITS) == {}
    ensures SetBits(FreemapBytes(disk, BLOCK_FREEMAP_START, BLOCK_FREEMAP_SIZE), NR_BLOCK_BITS) == {}
  {
    SuperRoundTrip(NewSuper(maxFsBlocks));
    NoBits(FreemapBytes(disk, INODE_FREEMAP_START, INODE_FREEMAP_SIZE), NR_INODE_BITS);
    NoBits(FreemapBytes(disk, BLOCK_FREEMAP_START, BLOCK_FREEMAP_SIZE), NR_BLOCK_BITS);
  }

  lemma Mounted(s: SuperBlock)
    requires s.Valid()
    ensures Room(s.sb) >= 0 && |s.used| == s.sb.usedBlockCount <= NR_BLOCK_BITS
    ensures |s.data| == DEVICE_BLOCKS
  {
  }

  lemma DiskBlock(s: SuperBlock, b: nat)
    requires s.Valid() && b < DEVICE_BLOCKS
    ensures |s.disk| == |s.data| == DEVICE_BLOCKS && (b >= INODE_BLOCKS_START ==> s.disk[b] == s.data[b])
  {
  }

  /** Closing a file system and mounting its device again restores the state. */
  method Remount(s: SuperBlock) returns (s': SuperBlock)
    requires s.Valid()
    modifies s`disk
    ensures s.Valid() && s'.Valid() && fresh(s') && s'.sb == s.sb && s'.disk == s.disk == old(s.disk) &&
            s'.used == s.used
    ensures s'.inodeFreemap.bits == s.inodeFreemap.bits && s'.blockFreemap.bits == s.blockFreemap.bits
  {
    hide Image;
    hide OnDisk;
    hide SetBits;
    hide FreemapBytes;
    s.Close();
    s' := new SuperBlock(s.disk);
    s.inodeFreemap.BitsAreSetBits();
    s.blockFreemap.BitsAreSetBits();
    s'.inodeFreemap.BitsAreSetBits();
    s'.blockFreemap.BitsAreSetBits();
    forall b ensures b in s'.used <==> b in s.used {
      assert BitOf(s'.blockFreemap.bits, b) <==> BitOf(s.blockFreemap.bits, b);
    }
  }
}
