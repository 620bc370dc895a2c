/** fs/inode.c: inodes on the device. */
module DiskInodes {
  import opened Bytes
  import opened Super
  import opened BlockMap
  import opened ReadWrite

  const INODE_SIZE: nat := 64
  const INODES_PER_BLOCK: nat := 128
  const NR_INODES: nat := 16384

  /** Every field fits its C type. */
  predicate Storable(d: DInode) {
    IsS32(d.iType) && |d.iBlockNr| == NR_DIRECT_BLOCKS &&
    (forall i :: 0 <= i < NR_DIRECT_BLOCKS ==> IsS32(d.iBlockNr[i])) &&
    IsS32(d.iIndirect) && IsS32(d.iDindirect) && IsS32(d.blockCount) && 0 <= d.iSize < 0x8000_0000_0000_0000
  }

  function InodeWords(d: DInode): seq<int> {
    [d.iType] + d.iBlockNr + [d.iIndirect, d.iDindirect, d.blockCount, d.iSize % 0x1_0000_0000, d.iSize / 0x1_0000_0000]
  }

  function DecodeInode(b: seq<Byte>): DInode
    requires |b| == INODE_SIZE
  {
    DInode(Word(b, 0), seq(NR_DIRECT_BLOCKS, i requires 0 <= i < NR_DIRECT_BLOCKS => Word(b, 1 + i)),
           Word(b, 11), Word(b, 12), Word(b, 13), UWord(b, 14) + 0x1_0000_0000 * Word(b, 15))
  }

  lemma InodeWord(d: DInode, k: nat)
    requires Storable(d) && k < 16
    ensures |InodeWords(d)| == 16
    ensures k != 14 ==> Word(EncodeWords(InodeWords(d)), k) == InodeWords(d)[k]
    ensures k == 14 ==> UWord(EncodeWords(InodeWords(d)), k) == InodeWords(d)[k]
  {
    EncodeThenWord(InodeWords(d), k);
  }

  lemma DirectWord(d: DInode, i: nat)
    requires Storable(d) && i < NR_DIRECT_BLOCKS
    ensures Word(EncodeWords(InodeWords(d)), 1 + i) == d.iBlockNr[i]
  {
    InodeWord(d, 1 + i);
  }

  lemma DirectWords(d: DInode, b: seq<Byte>)
    requires Storable(d) && b == EncodeWords(InodeWords(d)) && |b| == INODE_SIZE
    ensures DecodeInode(b).iBlockNr == d.iBlockNr
  {
    var words := DecodeInode(b).iBlockNr;
    forall i | 0 <= i < NR_DIRECT_BLOCKS ensures words[i] == d.iBlockNr[i] {
      DirectWord(d, i);
    }
  }

  lemma OtherWords(d: DInode, b: seq<Byte>)
    requires Storable(d) && b == EncodeWords(InodeWords(d)) && |b| == INODE_SIZE
    ensures Word(b, 0) == d.iType && Word(b, 11) == d.iIndirect && Word(b, 12) == d.iDindirect &&
            Word(b, 13) == d.blockCount
    ensures UWord(b, 14) + 0x1_0000_0000 * Word(b, 15) == d.iSize
  {
    InodeWord(d, 0);
    InodeWord(d, 11);
    InodeWord(d, 12);
    InodeWord(d, 13);
    InodeWord(d, 14);
    InodeWord(d, 15);
  }

  lemma InodeRoundTrip(d: DInode)
    requires Storable(d)
    ensures |EncodeWords(InodeWords(d))| == INODE_SIZE && DecodeInode(EncodeWords(InodeWords(d))) == d
  {
    var b := EncodeWords(InodeWords(d));
    DirectWords(d, b);
    OtherWords(d, b);
  }

  /** testfs_read_inode_block, and the copy out of it */
  function InodeAt(disk: seq<Block>, nr: nat): DInode
    requires |disk| == DEVICE_BLOCKS && nr < NR_INODES
  {
    var block := disk[INODE_BLOCKS_START + nr / INODES_PER_BLOCK];
    var offset := nr % INODES_PER_BLOCK * INODE_SIZE;
    DecodeInode(block[offset..offset + INODE_SIZE])
  }

  /** The inode block of nr with d in its slot */
  function WithInode(block: Block, nr: nat, d: DInode): Block
    requires |InodeWords(d)| == 16
  {
    Splice(block, nr % INODES_PER_BLOCK * INODE_SIZE, EncodeWords(InodeWords(d)))
  }

  /** testfs_write_inode_block, after the copy into the block */
  function Stored(disk: seq<Block>, nr: nat, d: DInode): seq<Block>
    requires |disk| == DEVICE_BLOCKS && nr < NR_INODES && |InodeWords(d)| == 16
  {
    var b := INODE_BLOCKS_START + nr / INODES_PER_BLOCK;
    disk[b := WithInode(disk[b], nr, d)]
  }

  /** Storing an inode changes its own slot and no other, not even in the block that it shares with 127 others. */
  lemma StoreInode(disk: seq<Block>, nr: nat, d: DInode, m: nat)
    requires |disk| == DEVICE_BLOCKS && nr < NR_INODES && m < NR_INODES && Storable(d)
    ensures InodeAt(Stored(disk, nr, d), m) == if m == nr then d else InodeAt(disk, m)
  {
    var at, off := nr % INODES_PER_BLOCK * INODE_SIZE, m % INODES_PER_BLOCK * INODE_SIZE;
    var b := INODE_BLOCKS_START + nr / INODES_PER_BLOCK;
    if m == nr {
      InodeRoundTrip(d);
      SpliceSlices(disk[b], at, EncodeWords(InodeWords(d)), at);
    } else if m / INODES_PER_BLOCK == nr / INODES_PER_BLOCK {
      SlotsApart(nr, m);
      SpliceSlices(disk[b], at, EncodeWords(InodeWords(d)), off);
    }
  }

  lemma StoredInodes(disk: seq<Block>, nr: nat, d: DInode)
    requires |disk| == DEVICE_BLOCKS && nr < NR_INODES && Storable(d)
    ensures forall m: nat :: m < NR_INODES ==>
              InodeAt(Stored(disk, nr, d), m) == if m == nr then d else InodeAt(disk, m)
  {
    forall m: nat | m < NR_INODES ensures InodeAt(Stored(disk, nr, d), m) == if m == nr then d else InodeAt(disk, m) {
      StoreInode(disk, nr, d, m);
    }
  }

  lemma InodeBlocksKept(disk: seq<Block>, disk': seq<Block>, m: nat)
    requires |disk| == |disk'| == DEVICE_BLOCKS && m < NR_INODES
    requires forall b :: INODE_BLOCKS_START <= b < DATA_BLOCKS_START ==> disk'[b] == disk[b]
    ensures InodeAt(disk', m) == InodeAt(disk, m)
  {
  }

  lemma SpliceSlices(block: Block, at: nat, src: seq<Byte>, off: nat)
    requires |src| == INODE_SIZE && at + INODE_SIZE <= BLOCK_SIZE && off + INODE_SIZE <= BLOCK_SIZE
    requires off == at || off + INODE_SIZE <= at || at + INODE_SIZE <= off
    ensures Splice(block, at, src)[off..off + INODE_SIZE] == if off == at then src else block[off..off + INODE_SIZE]
  {
  }

  lemma SlotsApart(nr: nat, m: nat)
    requires nr != m && nr / INODES_PER_BLOCK == m / INODES_PER_BLOCK
    ensures nr % INODES_PER_BLOCK * INODE_SIZE + INODE_SIZE <= m % INODES_PER_BLOCK * INODE_SIZE ||
            m % INODES_PER_BLOCK * INODE_SIZE + INODE_SIZE <= nr % INODES_PER_BLOCK * INODE_SIZE
  {
  }
}

/** fs/inode.c: the reference-counted hash table of the inodes in memory. */
module InodeCache {
  import opened Bytes
  import opened Bitmaps
  import opened Super
  import opened BlockMap
  import opened ReadWrite
  import opened FileData
  import opened FreeBlocks
  import opened FileTheorems
  import opened DiskInodes
  import opened FileSystem

  const HASH_SIZE: nat := 256

  /** inode_hashfn: the top 8 bits of a 32-bit product */
  function Hash(nr: nat): (h: nat)
    ensures h < HASH_SIZE
  {
    nr * 0x9e37_0001 % 0x1_0000_0000 / 0x100_0000
  }

  /** testfs_read_inode_block, the copy of the inode into the block, and testfs_write_inode_block */
  method WriteInode(sb: SuperBlock, nr: nat, din: DInode)
    requires sb.Valid() && nr < NR_INODES && |InodeWords(din)| == 16
    modifies sb`disk, sb`data
    ensures sb.Valid() && sb.data == Stored(old(sb.data), nr, din)
  {
    var blockNr := INODE_BLOCKS_START + nr / INODES_PER_BLOCK;
    sb.WriteBlock(blockNr, WithInode(sb.disk[blockNr], nr, din));
  }

  /** testfs_read_inode_block, and the copy of the inode out of the block */
  method ReadInodeBlock(sb: SuperBlock, nr: nat) returns (din: DInode)
    requires sb.Valid() && nr < NR_INODES
    ensures din == InodeAt(sb.data, nr)
  {
    var block := sb.disk[INODE_BLOCKS_START + nr / INODES_PER_BLOCK];
    var offset := nr % INODES_PER_BLOCK * INODE_SIZE;
    din := DecodeInode(block[offset..offset + INODE_SIZE]);
  }

  class InodeTable {
    const sb: SuperBlock
    var buckets: seq<seq<Inode>>
    /** The inodes in memory, by number. */
    ghost var cached: map<int, Inode>
    /** The references that were handed out and not yet put, by number. */
    ghost var refs: multiset<int>

    /** There is one inode in memory for each number in `cached`, once, in the bucket of its number, and nothing
        else. */
    ghost predicate Hashed()
      reads this`buckets, this`cached, cached.Values
    {
      |buckets| == HASH_SIZE &&
      (forall nr :: nr in cached ==>
         0 <= nr < NR_INODES && cached[nr].nr == nr && cached[nr].sb == sb && cached[nr] in buckets[Hash(nr)]) &&
      (forall h, i :: 0 <= h < HASH_SIZE && 0 <= i < |buckets[h]| ==>
         buckets[h][i].nr in cached && cached[buckets[h][i].nr] == buckets[h][i] && Hash(buckets[h][i].nr) == h) &&
      (forall h, i, j :: 0 <= h < HASH_SIZE && 0 <= i < j < |buckets[h]| ==> buckets[h][i] != buckets[h][j])
    }

    /** The inodes in memory are those that are referenced, each counts its references, and, unless it is dirty, it
        equals its slot. */
    ghost predicate Coherent()
      reads this, cached.Values, sb`data
    {
      Hashed() && |sb.data| == DEVICE_BLOCKS &&
      (forall nr :: nr in refs ==> nr in cached) &&
      (forall nr :: nr in cached ==>
         cached[nr].count == refs[nr] > 0 && (!cached[nr].dirty ==> cached[nr].din == InodeAt(sb.data, nr)))
    }

    /** The inode with number nr: the one in memory, or else the one on the device. */
    ghost function Lookup(nr: nat): DInode
      requires nr < NR_INODES && |sb.data| == DEVICE_BLOCKS
      reads this, cached.Values, sb`data
    {
      if nr in cached then cached[nr].din else InodeAt(sb.data, nr)
    }

    /** The table, with the device under it, shows the file system fs. */
    ghost predicate Shows(fs: Fs)
      reads this, cached.Values, sb, sb.inodeFreemap, sb.blockFreemap, sb.inodeFreemap.v, sb.blockFreemap.v
    {
      sb.Valid() && Coherent() && ShowsInodes(fs.inodes) &&
      fs.disk == sb.data && fs.sb == sb.sb && fs.used == sb.used && fs.bits == sb.inodeFreemap.bits
    }

    ghost predicate ShowsInodes(inodes: seq<DInode>)
      requires |sb.data| == DEVICE_BLOCKS
      reads this, cached.Values, sb`data
    {
      |inodes| == NR_INODES && forall nr :: 0 <= nr < NR_INODES ==> inodes[nr] == Lookup(nr)
    }

    /** inode_hash_init */
    constructor (sb: SuperBlock)
      requires sb.Valid()
      ensures this.sb == sb && cached == map[] && refs == multiset{} && Coherent()
    {
      this.sb := sb;
      buckets := seq(HASH_SIZE, _ => []);
      cached := map[];
      refs := multiset{};
    }

    lemma ShowsParts(fs: Fs)
      requires Shows(fs)
      ensures sb.Valid() && Coherent() && |sb.data| == DEVICE_BLOCKS && |fs.inodes| == NR_INODES
      ensures fs.disk == sb.data && fs.sb == sb.sb && fs.used == sb.used && fs.bits == sb.inodeFreemap.bits
      ensures forall m: nat :: m < NR_INODES ==> Lookup(m) == fs.inodes[m]
    {
    }

    lemma ShowsAll(fs: Fs)
      requires sb.Valid() && Coherent() && |sb.data| == DEVICE_BLOCKS && |fs.inodes| == NR_INODES
      requires fs.disk == sb.data && fs.sb == sb.sb && fs.used == sb.used && fs.bits == sb.inodeFreemap.bits
      requires forall m: nat :: m < NR_INODES ==> Lookup(m) == fs.inodes[m]
      ensures Shows(fs)
    {
    }

    lemma InMemory(file: Inode)
      requires Coherent() && file.nr in cached && cached[file.nr] == file
      ensures file.sb == sb && file.nr < NR_INODES
    {
    }

    /** inode_hash_find */
    method HashFind(nr: nat) returns (found: Inode?)
      requires Hashed()
      ensures found == if nr in cached then cached[nr] else null
    {
      var chain := buckets[Hash(nr)];
      var i := 0;
      while i < |chain|
        invariant i <= |chain| && forall k :: 0 <= k < i ==> chain[k].nr != nr
      {
        if chain[i].nr == nr {
          return chain[i];
        }
        i := i + 1;
      }
      return null;
    }

    /** inode_hash_insert */
    method HashInsert(file: Inode)
      requires Hashed() && file.nr !in cached && file.nr < NR_INODES && file.sb == sb
      modifies this
      ensures Hashed() && cached == old(cached)[file.nr := file] && refs == old(refs)
    {
      var h := Hash(file.nr);
      buckets := buckets[h := [file] + buckets[h]];
      cached := cached[file.nr := file];
    }

    /** inode_hash_remove */
    method HashRemove(file: Inode)
      requires Hashed() && file.nr in cached && cached[file.nr] == file
      modifies this
      ensures Hashed() && cached == old(cached) - {file.nr} && refs == old(refs)
    {
      var h := Hash(file.nr);
      var chain := buckets[h];
      var i := 0;
      while chain[i] != file
        invariant i < |chain| && forall k :: 0 <= k < i ==> chain[k] != file
        decreases |chain| - i
      {
        i := i + 1;
      }
      buckets := buckets[h := chain[..i] + chain[i + 1..]];
      cached := cached - {file.nr};
    }

    /** testfs_get_inode, when the inode is not in memory */
    method ReadInode(nr: nat) returns (file: Inode)
      requires Coherent() && sb.Valid() && nr < NR_INODES && nr !in cached
      modifies this
      ensures Coherent() && cached == old(cached)[nr := file] && refs == old(refs) + multiset{nr}
      ensures fresh(file) && !file.dirty && file.din == InodeAt(sb.data, nr) && file.sb == sb && file.nr == nr
    {
      hide InodeAt;
      hide InodeTable.Hashed;
      hide SuperBlock.Valid;
      var din := ReadInodeBlock(sb, nr);
      file := new Inode(sb, nr, din);
      HashInsert(file);
      refs := refs + multiset{nr};
    }

    /** testfs_get_inode, when the inode is in memory */
    method Reference(file: Inode)
      requires Coherent() && file.nr in cached && cached[file.nr] == file
      modifies this`refs, file`count
      ensures Coherent() && refs == old(refs) + multiset{file.nr}
    {
      hide InodeAt;
      file.count := file.count + 1;
      refs := refs + multiset{file.nr};
    }

    /** testfs_get_inode */
    method GetInode(nr: nat) returns (file: Inode)
      requires Coherent() && sb.Valid() && nr < NR_INODES
      modifies this, cached.Values`count
      ensures Coherent() && cached == old(cached)[nr := file] && refs == old(refs) + multiset{nr}
      ensures if nr in old(cached) then file == old(cached[nr]) else fresh(file) && !file.dirty
      ensures file.din == old(Lookup(nr)) && file.sb == sb && file.nr == nr
      ensures forall m: nat :: m < NR_INODES ==> Lookup(m) == old(Lookup(m))
    {
      hide InodeAt;
      var found := HashFind(nr);
      if found != null {
        Reference(found);
        assert cached == cached[nr := found];
        return found;
      }
      file := ReadInode(nr);
    }

    /** testfs_sync_inode */
    method SyncInode(file: Inode)
      requires Coherent() && sb.Valid() && file.nr in cached && cached[file.nr] == file && Storable(file.din)
      modifies sb`disk, sb`data, file`dirty
      ensures Coherent() && sb.Valid() && !file.dirty
      ensures sb.data == if old(file.dirty) then old(Stored(sb.data, file.nr, file.din)) else old(sb.data)
      ensures forall m: nat :: m < NR_INODES ==> Lookup(m) == old(Lookup(m))
    {
      hide InodeAt;
      hide SuperBlock.Base;
      hide Stored;
      if !file.dirty {
        return;
      }
      StoredInodes(sb.data, file.nr, file.din);
      file.dirty := false;
      WriteInode(sb, file.nr, file.din);
    }

    /** testfs_put_inode */
    method PutInode(file: Inode)
      requires Coherent() && file.nr in cached && cached[file.nr] == file && !file.dirty
      modifies this, file`count
      ensures Coherent() && refs == old(refs) - multiset{file.nr}
      ensures cached == if file.nr in refs then old(cached) else old(cached) - {file.nr}
      ensures forall m: nat :: m < NR_INODES ==> Lookup(m) == old(Lookup(m))
    {
      hide InodeAt;
      hide SuperBlock.Base;
      file.count := file.count - 1;
      refs := refs - multiset{file.nr};
      if file.count == 0 {
        HashRemove(file);
      }
    }

    /** A change to one inode in memory, marked dirty */
    method SetInode(file: Inode, d: DInode)
      requires Coherent() && file.nr in cached && cached[file.nr] == file
      modifies file`din, file`dirty
      ensures Coherent() && file.dirty && file.din == d
      ensures forall m: nat :: m < NR_INODES ==> Lookup(m) == if m == file.nr then d else old(Lookup(m))
    {
      hide InodeAt;
      file.din := d;
      file.dirty := true;
    }

    /** testfs_create_inode: the inode number, given back if it lies beyond the inode blocks */
    method TakeInodeNumber() returns (ret: int)
      requires sb.Valid() && forall nr :: nr in sb.inodeFreemap.bits ==> 0 <= nr < NR_INODES
      modifies sb`sb, sb`disk, sb.inodeFreemap, sb.inodeFreemap.v
      ensures sb.Valid() && sb.data == old(sb.data) && sb.used == old(sb.used)
      ensures ret >= 0 <==> !Full(old(sb.inodeFreemap.bits), NR_INODES)
      ensures ret >= 0 ==>
                ret < NR_INODES && ret !in old(sb.inodeFreemap.bits) && Full(old(sb.inodeFreemap.bits), ret) &&
                sb.inodeFreemap.bits == old(sb.inodeFreemap.bits) + {ret} &&
                sb.sb == old(sb.sb).(usedInodeCount := old(sb.sb).usedInodeCount + 1)
      ensures ret < 0 ==> ret == -ENOSPC && sb.inodeFreemap.bits == old(sb.inodeFreemap.bits) && sb.sb == old(sb.sb)
    {
      ret := sb.GetInodeFreemap();
      if ret < 0 {
        return;
      }
      if ret / INODES_PER_BLOCK >= NR_INODE_BLOCKS {
        sb.PutInodeFreemap(ret);
        ret := -ENOSPC;
      }
    }

    /** testfs_create_inode: the inode of a new number, with its type */
    method InitInode(nr: nat, iType: int) returns (file: Inode)
      requires Coherent() && sb.Valid() && nr < NR_INODES
      modifies this, cached.Values
      ensures Coherent() && file.nr == nr && cached == old(cached)[nr := file] && refs == old(refs) + multiset{nr} &&
              file.dirty && (nr !in old(cached) ==> fresh(file))
      ensures forall m: nat :: m < NR_INODES ==>
                Lookup(m) == if m == nr then old(Lookup(m)).(iType := iType) else old(Lookup(m))
    {
      hide InodeAt;
      file := GetInode(nr);
      assert file.din == old(Lookup(nr));
      SetInode(file, file.din.(iType := iType));
    }

    /** testfs_create_inode, once a number was taken */
    method CreateAt(nr: nat, iType: int, ghost fs: Fs) returns (file: Inode, ghost fs': Fs)
      requires sb.Valid() && Coherent() && |sb.data| == DEVICE_BLOCKS && nr < NR_INODES && nr !in fs.bits &&
               1 <= iType <= 2
      requires |fs.inodes| == |fs.owns| == NR_INODES && fs.disk == sb.data && fs.used == sb.used
      requires sb.sb == fs.sb.(usedInodeCount := fs.sb.usedInodeCount + 1) && sb.inodeFreemap.bits == fs.bits + {nr}
      requires forall m: nat :: m < NR_INODES ==> Lookup(m) == fs.inodes[m]
      modifies this, cached.Values
      ensures Shows(fs') && Step(fs, Create(nr, iType), fs') && file.nr == nr && file.dirty
      ensures nr !in old(cached) ==> fresh(file)
      ensures cached == old(cached)[nr := file] && refs == old(refs) + multiset{nr}
    {
      hide InodeAt;
      hide InodeTable.Hashed;
      hide InodeTable.Shows;
      hide InodeTable.Coherent;
      hide InodeTable.Lookup;
      hide SuperBlock.Valid;
      hide Next;
      hide Typed;
      hide Step;
      file := InitInode(nr, iType);
      fs' := Next(fs, nr, Typed(fs.Of(nr), iType), fs.disk, fs.bits + {nr});
      CreateNext(fs, nr, iType, fs');
      ShowsAll(fs');
    }

    /** testfs_create_inode */
    method CreateInode(iType: int, ghost fs: Fs) returns (ret: int, file: Inode?, ghost fs': Fs)
      requires Shows(fs) && fs.Ok() && 1 <= iType <= 2
      modifies this, cached.Values, sb`sb, sb`disk, sb.inodeFreemap, sb.inodeFreemap.v
      ensures Shows(fs') && (ret == 0 || ret == -ENOSPC)
      ensures ret == 0 <==> !Full(fs.bits, NR_INODES)
      ensures ret == 0 ==>
                file != null && file.dirty && cached == old(cached)[file.nr := file] &&
                refs == old(refs) + multiset{file.nr} &&
                Full(fs.bits, file.nr) && Step(fs, Create(file.nr, iType), fs') &&
                (file.nr !in old(cached) ==> fresh(file))
      ensures ret < 0 ==> fs' == fs && cached == old(cached) && refs == old(refs)
    {
      hide InodeAt;
      hide InodeTable.Hashed;
      hide Fs.Ok;
      hide Step;
      ShowsParts(fs);
      hide InodeTable.Shows;
      hide InodeTable.Coherent;
      hide InodeTable.Lookup;
      hide SuperBlock.Valid;
      OkBits(fs);
      file, fs' := null, fs;
      var inodeNr := TakeInodeNumber();
      if inodeNr < 0 {
        ShowsAll(fs);
        return inodeNr, file, fs';
      }
      file, fs' := CreateAt(inodeNr, iType, fs);
      return 0, file, fs';
    }

    /** A change to one inode and to data blocks concerns no other inode, in memory or on the device. */
    twostate lemma BlocksChanged(file: Inode)
      requires old(Coherent()) && file.nr in cached && cached[file.nr] == file
      requires cached == old(cached) && refs == old(refs) && buckets == old(buckets) && file.count == old(file.count)
      requires forall m :: m in cached && m != file.nr ==> unchanged(cached[m])
      requires |sb.data| == DEVICE_BLOCKS
      requires forall b :: INODE_BLOCKS_START <= b < DATA_BLOCKS_START ==> sb.data[b] == old(sb.data[b])
      requires !file.dirty ==> !old(file.dirty) && file.din == old(file.din)
      ensures Coherent()
      ensures forall m: nat :: m < NR_INODES ==> Lookup(m) == if m == file.nr then file.din else old(Lookup(m))
    {
      forall m: nat | m < NR_INODES ensures InodeAt(sb.data, m) == old(InodeAt(sb.data, m)) {
        InodeBlocksKept(old(sb.data), sb.data, m);
      }
    }

    /** testfs_free_blocks, as testfs_remove_inode calls it */
    method ReleaseBlocks(file: Inode, ghost fs: Fs) returns (ghost gone: set<int>)
      requires Shows(fs) && Removable(fs, file.nr) && file.nr in cached && cached[file.nr] == file
      modifies file`din, file`dirty, sb, sb.blockFreemap, sb.blockFreemap.v
      ensures sb.Valid() && sb.inodeFreemap.bits == old(sb.inodeFreemap.bits) && Coherent() && file.dirty
      ensures Released(fs.Of(file.nr), gone, file.S(fs.owns[file.nr]))
      ensures forall m: nat :: m < NR_INODES ==> Lookup(m) == if m == file.nr then file.din else fs.inodes[m]
    {
      hide InodeAt;
      hide State.Sound;
      ghost var nr := file.nr;
      assert file.S(fs.owns[nr]) == fs.Of(nr);
      var ret;
      ret, gone := FreeBlocks.FreeBlocks(file, fs.owns[nr]);
      InodeBlocksReleased(fs.Of(nr), gone, file.S(fs.owns[nr]));
      BlocksChanged(file);
    }

    /** testfs_sync_inode and testfs_put_inode, after an inode got its new contents */
    method SyncAndPut(file: Inode)
      requires Coherent() && sb.Valid() && file.nr in cached && cached[file.nr] == file && Storable(file.din)
      modifies this, sb`disk, sb`data, file`dirty, file`count
      ensures Coherent() && sb.Valid()
      ensures refs == old(refs) - multiset{file.nr} && cached == if file.nr in refs then old(cached)
              else old(cached) - {file.nr}
      ensures forall m: nat :: m < NR_INODES ==> Lookup(m) == old(Lookup(m))
      ensures forall b :: DATA_BLOCKS_START <= b < DEVICE_BLOCKS ==> sb.data[b] == old(sb.data[b])
    {
      hide InodeAt;
      hide SuperBlock.Base;
      SyncInode(file);
      PutInode(file);
    }

    /** testfs_remove_inode, after its blocks were given back */
    method ClearInode(file: Inode)
      requires Coherent() && sb.Valid() && file.nr in cached && cached[file.nr] == file &&
               file.nr in sb.inodeFreemap.bits
      modifies this, file, sb`sb, sb`disk, sb`data, sb.inodeFreemap, sb.inodeFreemap.v
      ensures Coherent() && sb.Valid() && sb.inodeFreemap.bits == old(sb.inodeFreemap.bits) - {file.nr}
      ensures sb.used == old(sb.used) && sb.sb == old(sb.sb).(usedInodeCount := old(sb.sb).usedInodeCount - 1)
      ensures refs == old(refs) - multiset{file.nr} && cached == if file.nr in refs then old(cached)
              else old(cached) - {file.nr}
      ensures forall m: nat :: m < NR_INODES ==> Lookup(m) == if m == file.nr then NoInode() else old(Lookup(m))
      ensures forall b :: DATA_BLOCKS_START <= b < DEVICE_BLOCKS ==> sb.data[b] == old(sb.data[b])
    {
      hide InodeAt;
      hide SuperBlock.Base;
      hide InodeTable.Hashed;
      SetInode(file, NoInode());
      sb.PutInodeFreemap(file.nr);
      SyncAndPut(file);
    }

    /** testfs_remove_inode, after its blocks were given back: the new file system */
    method ClearAndShow(file: Inode, ghost gone: set<int>, ghost fs: Fs) returns (ghost fs': Fs)
      requires sb.Valid() && Coherent() && |sb.data| == DEVICE_BLOCKS && |fs.inodes| == |fs.owns| == NR_INODES
      requires file.nr in cached && cached[file.nr] == file && file.sb == sb && file.nr < NR_INODES &&
               file.nr in fs.bits
      requires sb.inodeFreemap.bits == fs.bits && Released(fs.Of(file.nr), gone, file.S(fs.owns[file.nr]))
      requires forall m: nat :: m < NR_INODES ==> Lookup(m) == if m == file.nr then file.din else fs.inodes[m]
      modifies this, file, sb`sb, sb`disk, sb`data, sb.inodeFreemap, sb.inodeFreemap.v
      ensures Shows(fs') && Step(fs, Remove(file.nr), fs')
      ensures refs == old(refs) - multiset{file.nr} && cached == if file.nr in refs then old(cached)
              else old(cached) - {file.nr}
    {
      hide InodeAt;
      hide InodeTable.Hashed;
      hide InodeTable.Shows;
      hide InodeTable.Coherent;
      hide InodeTable.Lookup;
      hide SuperBlock.Valid;
      hide Released;
      hide Step;
      ghost var t := file.S(fs.owns[file.nr]);
      ClearInode(file);
      Mounted(sb);
      fs' := Next(fs, file.nr, Cleared(t), sb.data, fs.bits - {file.nr});
      RemoveNext(fs, file.nr, gone, t, fs');
      ShowsAll(fs');
    }

    /** testfs_remove_inode; its assertion holds because every mapped block lies within the file size. */
    method RemoveInode(file: Inode, ghost fs: Fs) returns (ghost fs': Fs)
      requires Shows(fs) && Removable(fs, file.nr) && file.nr in cached && cached[file.nr] == file
      modifies this, file, sb, sb.inodeFreemap, sb.inodeFreemap.v, sb.blockFreemap, sb.blockFreemap.v
      ensures Shows(fs') && Step(fs, Remove(file.nr), fs')
      ensures refs == old(refs) - multiset{file.nr} && cached == if file.nr in refs then old(cached)
              else old(cached) - {file.nr}
    {
      hide InodeAt;
      hide InodeTable.Hashed;
      InMemory(file);
      hide Step;
      hide Released;
      ShowsParts(fs);
      hide InodeTable.Shows;
      hide InodeTable.Coherent;
      hide InodeTable.Lookup;
      hide SuperBlock.Valid;
      ghost var gone := ReleaseBlocks(file, fs);
      ReleasedInode(fs, file.nr, gone, file.S(fs.owns[file.nr]));
      assert file.din.blockCount == 0;
      Mounted(sb);
      fs' := ClearAndShow(file, gone, fs);
    }

    /** testfs_write_data, as cmd_write calls it */
    method WriteBlocks(file: Inode, buf: seq<Byte>, start: nat, ghost fs: Fs)
      returns (ret: int, ghost own: map<int, Slot>, ghost k: nat, ghost tail: Block)
      requires Shows(fs) && fs.Ok() && file.nr in cached && cached[file.nr] == file
      requires 0 < |buf| < MAX_TRANSFER && start + |buf| < MAX_OFFSET
      modifies file`din, file`dirty, sb, sb.blockFreemap, sb.blockFreemap.v
      ensures sb.Valid() && sb.inodeFreemap.bits == old(sb.inodeFreemap.bits) && Coherent()
      ensures Attempted(fs.Of(file.nr), buf, start, ret, k, tail, file.S(own))
      ensures forall m: nat :: m < NR_INODES ==> Lookup(m) == if m == file.nr then file.din else fs.inodes[m]
    {
      hide InodeAt;
      hide SuperBlock.Base;
      hide State.Sound;
      hide Done;
      hide Partly;
      hide TailKept;
      assert fs.Good(file.nr);
      ghost var s := file.S(fs.owns[file.nr]);
      ret, own, k, tail := WriteData(file, buf, start, fs.owns[file.nr]);
      InodeBlocksWritten(s, buf, start, k, tail, file.S(own), ret);
      if ret < 0 {
        StoppedWhere(s, buf, start, k, file.S(own));
      }
      BlocksChanged(file);
    }

    /** testfs_write_data into an inode that stays in memory, and is not yet synced */
    method WriteHeld(file: Inode, buf: seq<Byte>, start: nat, ghost fs: Fs) returns (ret: int, ghost fs': Fs)
      requires Shows(fs) && fs.Ok() && file.nr in cached && cached[file.nr] == file && file.nr in fs.bits
      requires 0 < |buf| < MAX_TRANSFER && start + |buf| < MAX_OFFSET
      modifies file`din, file`dirty, sb, sb.blockFreemap, sb.blockFreemap.v
      ensures Shows(fs') && CmdWrite(fs, file.nr, buf, start, ret, fs') && Storable(file.din)
    {
      hide InodeAt;
      hide InodeTable.Hashed;
      InMemory(file);
      hide Attempted;
      hide CmdWrite;
      hide Fs.Ok;
      ShowsParts(fs);
      hide InodeTable.Shows;
      hide InodeTable.Coherent;
      hide InodeTable.Lookup;
      hide SuperBlock.Valid;
      OkBits(fs);
      ghost var own, k, tail;
      ret, own, k, tail := WriteBlocks(file, buf, start, fs);
      Mounted(sb);
      WriteStorable(fs, file.nr, buf, start, k, tail, file.S(own), ret);
      fs' := Next(fs, file.nr, file.S(own), sb.data, fs.bits);
      WriteNext(fs, file.nr, buf, start, k, tail, file.S(own), ret, fs');
      ShowsAll(fs');
    }

    /** testfs_sync_inode, of an inode in an orderly file system */
    method SyncHeld(file: Inode, ghost fs: Fs) returns (ghost fs': Fs)
      requires Shows(fs) && fs.Ok() && file.nr in cached && cached[file.nr] == file
      modifies sb`disk, sb`data, file`dirty
      ensures Shows(fs') && Synced(fs, fs') && !file.dirty
    {
      hide InodeAt;
      hide SuperBlock.Base;
      hide InodeTable.Hashed;
      InMemory(file);
      Mounted(sb);
      OkStorable(fs, file.nr);
      hide Fs.Ok;
      assert file.din == Lookup(file.nr);
      SyncInode(file);
      fs' := fs.(disk := sb.data);
    }

    /** cmd_write: write, sync, and put */
    method WriteAndPut(file: Inode, buf: seq<Byte>, start: nat, ghost fs: Fs) returns (ret: int, ghost fs': Fs)
      requires Shows(fs) && fs.Ok() && file.nr in cached && cached[file.nr] == file && file.nr in fs.bits
      requires 0 < |buf| < MAX_TRANSFER && start + |buf| < MAX_OFFSET
      modifies this, file, sb, sb.blockFreemap, sb.blockFreemap.v
      ensures Shows(fs') && CmdWrite(fs, file.nr, buf, start, ret, fs')
      ensures refs == old(refs) - multiset{file.nr} && cached == if file.nr in refs then old(cached)
              else old(cached) - {file.nr}
    {
      hide InodeAt;
      hide InodeTable.Hashed;
      hide CmdWrite;
      hide Fs.Ok;
      hide SuperBlock.Valid;
      hide InodeTable.Shows;
      hide InodeTable.Coherent;
      hide InodeTable.Lookup;
      ghost var fs1;
      ret, fs1 := WriteHeld(file, buf, start, fs);
      ShowsParts(fs1);
      SyncAndPut(file);
      Mounted(sb);
      fs' := fs1.(disk := sb.data);
      CmdWriteSynced(fs, file.nr, buf, start, ret, fs1, fs');
      ShowsAll(fs');
    }

    /** cmd_write, once the inode number is known */
    method WriteFile(nr: nat, buf: seq<Byte>, start: nat, ghost fs: Fs) returns (ret: int, ghost fs': Fs)
      requires Shows(fs) && fs.Ok() && nr in fs.bits && 0 < |buf| < MAX_TRANSFER && start + |buf| < MAX_OFFSET
      modifies this, cached.Values, sb, sb.blockFreemap, sb.blockFreemap.v
      ensures Shows(fs') && cached == old(cached) && refs == old(refs)
      ensures CmdWrite(fs, nr, buf, start, ret, fs')
    {
      hide InodeAt;
      hide SuperBlock.Base;
      hide InodeTable.Hashed;
      hide CmdWrite;
      hide Fs.Ok;
      OkBits(fs);
      var file := GetInode(nr);
      ret, fs' := WriteAndPut(file, buf, start, fs);
    }
  }

  lemma ZeroInode(disk: seq<Block>, maxFsBlocks: nat, nr: nat)
    requires Made(disk, maxFsBlocks) && nr < NR_INODES
    ensures InodeAt(disk, nr) == NoInode()
  {
    var block, offset := disk[INODE_BLOCKS_START + nr / INODES_PER_BLOCK], nr % INODES_PER_BLOCK * INODE_SIZE;
    var b := block[offset..offset + INODE_SIZE];
    ZeroDecodes(b);
  }

  lemma ZeroDecodes(b: seq<Byte>)
    requires |b| == INODE_SIZE && forall j :: 0 <= j < INODE_SIZE ==> b[j] == 0
    ensures DecodeInode(b) == NoInode()
  {
    var d := DecodeInode(b);
    forall i | 0 <= i < NR_DIRECT_BLOCKS ensures d.iBlockNr[i] == 0 {
      ZeroWord(b, 1 + i);
    }
    assert d.iBlockNr == NoInode().iBlockNr;
    ZeroWord(b, 0);
    ZeroWord(b, 11);
    ZeroWord(b, 12);
    ZeroWord(b, 13);
    ZeroWord(b, 15);
    assert UWord(b, 14) == 0;
  }

  /** mktestfs and the first start: the table shows the fresh file system. */
  method MakeFileSystem(device: seq<Block>, maxFsBlocks: nat) returns (table: InodeTable, ghost fs: Fs)
    requires |device| == DEVICE_BLOCKS && maxFsBlocks < 0x1_0000_0000_0000_0000
    ensures table.Shows(fs) && fs.Ok() && fs == Fresh(fs.disk, NewSuper(maxFsBlocks)) && table.cached == map[] &&
            table.refs == multiset{}
    ensures fresh(table) && fresh(table.sb) && fresh(table.sb.inodeFreemap) && fresh(table.sb.inodeFreemap.v) &&
            fresh(table.sb.blockFreemap) && fresh(table.sb.blockFreemap.v)
  {
    hide Image;
    hide Fs.Ok;
    hide InodeAt;
    hide FreemapBytes;
    hide SetBits;
    var disk := Make(device, maxFsBlocks);
    MadeImage(disk, maxFsBlocks);
    var sb := new SuperBlock(disk);
    sb.inodeFreemap.BitsAreSetBits();
    sb.blockFreemap.BitsAreSetBits();
    table := new InodeTable(sb);
    fs := Fresh(disk, NewSuper(maxFsBlocks));
    FreshOk(disk, NewSuper(maxFsBlocks));
    FreshParts(disk, NewSuper(maxFsBlocks));
    assert sb.used == {};
    forall nr | 0 <= nr < NR_INODES ensures fs.inodes[nr] == table.Lookup(nr) {
      ZeroInode(disk, maxFsBlocks, nr);
    }
  }
}
