/** The whole file system: all inodes with their blocks, and what runs of operations keep. */
module FileSystem {
  import opened Bytes
  import opened Bitmaps
  import opened Super
  import opened BlockMap
  import opened ReadWrite
  import opened FileData
  import opened FreeBlocks
  import opened FileTheorems
  import opened DiskInodes

  /** A cleared inode */
  function NoInode(): DInode {
    DInode(0, [0, 0, 0, 0, 0, 0, 0, 0, 0, 0], 0, 0, 0, 0)
  }

  /** The device, the super block, the allocated blocks, the allocated inode numbers, and for each inode number the
      inode and its blocks; `owner` names the one inode that has an allocated block. */
  datatype Fs = Fs(disk: seq<Block>, sb: DSuperBlock, used: set<int>, bits: set<int>,
                   inodes: seq<DInode>, owns: seq<map<int, Slot>>, owner: map<int, int>)
  {
    /** The state that an operation on inode nr sees. */
    function Of(nr: nat): State
      requires nr < |inodes| && nr < |owns|
    {
      State(disk, sb, used, inodes[nr], owns[nr])
    }

    ghost predicate Good(nr: nat)
      requires nr < |inodes| && nr < |owns|
    {
      Of(nr).Sound() && Filled(Of(nr)) && 0 <= inodes[nr].iSize <= MAX_FILE_SIZE && 0 <= inodes[nr].iType <= 2 &&
      (nr in bits <==> inodes[nr].iType != 0) && (nr !in bits ==> inodes[nr] == NoInode())
    }

    /** Every inode is a tree of blocks that lie within its file size and are counted by it, an inode number that is
        not allocated has a cleared inode, and the allocated blocks are shared out among the inodes: each belongs to
        exactly one. */
    ghost predicate Ok() {
      |disk| == DEVICE_BLOCKS && |inodes| == |owns| == NR_INODES && (forall nr :: nr in bits ==> 0 <= nr < NR_INODES) &&
      (forall nr :: 0 <= nr < NR_INODES ==> Good(nr)) &&
      (forall b :: b in used <==> b in owner) && |used| == sb.usedBlockCount &&
      (forall b :: b in owner ==> 0 <= owner[b] < NR_INODES && b in owns[owner[b]]) &&
      (forall nr, b :: 0 <= nr < NR_INODES && b in owns[nr] ==> b in owner && owner[b] == nr)
    }
  }

  /** What testfs_remove_inode needs: the one inode in order */
  ghost predicate Removable(fs: Fs, nr: nat) {
    |fs.disk| == DEVICE_BLOCKS && |fs.inodes| == |fs.owns| == NR_INODES && nr in fs.bits && nr < NR_INODES &&
    fs.Good(nr)
  }

  lemma OkRemovable(fs: Fs, nr: nat)
    requires fs.Ok() && nr in fs.bits
    ensures Removable(fs, nr)
  {
  }

  lemma OkBits(fs: Fs)
    requires fs.Ok()
    ensures |fs.inodes| == |fs.owns| == NR_INODES && |fs.disk| == DEVICE_BLOCKS
    ensures forall nr :: nr in fs.bits ==> 0 <= nr < NR_INODES
  {
  }

  // ---- What Ok means for the pointers themselves ----

  /** No block has two pointers to it, whether from one inode or from two; what is pointed to is allocated. */
  lemma NoBlockShared(fs: Fs, m: nat, r: Slot, n: nat, s: Slot)
    requires fs.Ok() && m < NR_INODES && n < NR_INODES && r.Valid() && s.Valid()
    requires Ptr(fs.disk, fs.inodes[m], r) == Ptr(fs.disk, fs.inodes[n], s) != 0
    ensures m == n && r == s
    ensures DATA_BLOCKS_START <= Ptr(fs.disk, fs.inodes[m], r) < DEVICE_BLOCKS &&
            Ptr(fs.disk, fs.inodes[m], r) in fs.used
  {
    assert fs.Good(m) && fs.Good(n);
    OwnedPointer(fs.Of(m), r);
    OwnedPointer(fs.Of(n), s);
  }

  /** Every allocated block is reached from some inode: nothing leaks. */
  lemma NoBlockLost(fs: Fs, b: int)
    requires fs.Ok() && b in fs.used
    ensures exists nr: nat, s: Slot :: nr < NR_INODES && s.Valid() && Ptr(fs.disk, fs.inodes[nr], s) == b
  {
    var nr := fs.owner[b];
    assert fs.Good(nr);
    assert Ptr(fs.disk, fs.inodes[nr], fs.owns[nr][b]) == b;
  }

  /** The block counts of the first n inodes, added up. */
  function BlockTotal(inodes: seq<DInode>, n: nat): int
    requires n <= |inodes|
  {
    if n == 0 then 0 else BlockTotal(inodes, n - 1) + inodes[n - 1].blockCount
  }

  ghost function OwnedBelow(fs: Fs, n: int): set<int> {
    set b | b in fs.owner && fs.owner[b] < n
  }

  lemma OwnedStep(fs: Fs, n: nat)
    requires fs.Ok() && n < NR_INODES
    ensures |OwnedBelow(fs, n + 1)| == |OwnedBelow(fs, n)| + fs.inodes[n].blockCount
  {
    var s := fs.Of(n);
    assert fs.Good(n);
    assert |s.own.Keys| == |s.own|;
    forall b ensures b in OwnedBelow(fs, n + 1) <==> b in OwnedBelow(fs, n) || b in s.own.Keys {
    }
    assert OwnedBelow(fs, n + 1) == OwnedBelow(fs, n) + s.own.Keys;
    forall b | b in s.own.Keys ensures b !in OwnedBelow(fs, n) {
      assert b in fs.owns[n] && fs.owner[b] == n;
    }
    assert OwnedBelow(fs, n) !! s.own.Keys;
  }

  lemma {:induction false} TotalBelow(fs: Fs, n: nat)
    requires fs.Ok() && n <= NR_INODES
    ensures BlockTotal(fs.inodes, n) == |OwnedBelow(fs, n)|
  {
    if n == 0 {
      forall b | b in fs.owner ensures fs.owner[b] >= 0 {
      }
      assert OwnedBelow(fs, 0) == {};
    } else {
      TotalBelow(fs, n - 1);
      OwnedStep(fs, n - 1);
    }
  }

  /** The block counts of all inodes add up to the used block count of the super block. */
  lemma Conservation(fs: Fs)
    requires fs.Ok()
    ensures BlockTotal(fs.inodes, NR_INODES) == fs.sb.usedBlockCount
  {
    TotalBelow(fs, NR_INODES);
    forall b ensures b in OwnedBelow(fs, NR_INODES) <==> b in fs.used {
    }
    assert OwnedBelow(fs, NR_INODES) == fs.used;
  }

  // ---- One operation ----

  /** Blocks that are left alone keep the tree and the contents of their inode. */
  lemma OwnFrame(s: State, t: State)
    requires s.Sound() && t.own == s.own && t.din == s.din && |t.disk| == |s.disk| && s.own.Keys <= t.used
    requires forall b :: b in s.own ==> t.disk[b] == s.disk[b]
    ensures t.Sound() && (Filled(s) ==> Filled(t))
    ensures forall off :: 0 <= off < MAX_FILE_SIZE ==> ByteAt(t, off) == ByteAt(s, off)
  {
    PtrFrame(s.disk, s.din, s.own, t.disk, t.din);
    forall off | 0 <= off < MAX_FILE_SIZE ensures ByteAt(t, off) == ByteAt(s, off) {
      OwnedPointer(s, SlotOf(off / BLOCK_SIZE));
    }
  }

  /** An allocated block that had no owner belongs to nr. */
  function Heirs(owner: map<int, int>, nr: int, used: set<int>): map<int, int> {
    map b | b in used :: if b in owner then owner[b] else nr
  }

  /** The inode nr is in state t, and the rest of fs is as it was. */
  ghost predicate Becomes(fs: Fs, nr: nat, t: State, fs': Fs) {
    nr < |fs.inodes| == |fs.owns| && |fs'.disk| == |t.disk| == DEVICE_BLOCKS &&
    (forall b :: DATA_BLOCKS_START <= b < DEVICE_BLOCKS ==> fs'.disk[b] == t.disk[b]) &&
    fs'.sb == t.sb && fs'.used == t.used && fs'.owner == Heirs(fs.owner, nr, t.used) &&
    fs'.inodes == fs.inodes[nr := t.din] && fs'.owns == fs.owns[nr := t.own]
  }

  /** The file system after inode nr came into state t, with the device as it is now. */
  function Next(fs: Fs, nr: nat, t: State, disk: seq<Block>, bits: set<int>): Fs
    requires nr < |fs.inodes| == |fs.owns|
  {
    Fs(disk, t.sb, t.used, bits, fs.inodes[nr := t.din], fs.owns[nr := t.own], Heirs(fs.owner, nr, t.used))
  }

  /** What the inode took was free, what it did not keep was given back, and the blocks of the other inodes were left
      alone. */
  ghost predicate Fair(fs: Fs, nr: nat, t: State)
    requires nr < |fs.inodes| == |fs.owns|
  {
    |t.disk| == |fs.disk| == DEVICE_BLOCKS && |t.used| == t.sb.usedBlockCount &&
    (forall b :: b in t.own && b !in fs.owns[nr] ==> b !in fs.used) &&
    (forall b :: b in t.used <==> (b in fs.used && b !in fs.owns[nr]) || b in t.own) &&
    (forall b :: DATA_BLOCKS_START <= b < DEVICE_BLOCKS && b in fs.used && b !in fs.owns[nr] ==>
       t.disk[b] == fs.disk[b])
  }

  lemma OtherInode(fs: Fs, nr: nat, t: State, fs': Fs, m: nat)
    requires fs.Ok() && nr < NR_INODES && Fair(fs, nr, t) && Becomes(fs, nr, t, fs') && m < NR_INODES && m != nr
    ensures fs'.Of(m).Sound() && Filled(fs'.Of(m)) && fs'.inodes[m] == fs.inodes[m]
    ensures forall off :: 0 <= off < MAX_FILE_SIZE ==> ByteAt(fs'.Of(m), off) == ByteAt(fs.Of(m), off)
  {
    assert fs.Good(m);
    var s := fs.Of(m);
    var t' := fs'.Of(m);
    forall b | b in s.own ensures b in t'.used {
      assert b in fs.owns[m] && fs.owner[b] == m;
    }
    forall b | b in s.own.Keys ensures b in s.own {
    }
    assert s.own.Keys <= t'.used;
    OwnFrame(s, t');
  }

  lemma StepOwners(fs: Fs, nr: nat, t: State, fs': Fs)
    requires fs.Ok() && nr < NR_INODES && Fair(fs, nr, t) && Becomes(fs, nr, t, fs')
    ensures forall b :: b in fs'.owner ==> 0 <= fs'.owner[b] < NR_INODES && b in fs'.owns[fs'.owner[b]]
    ensures forall m, b :: 0 <= m < NR_INODES && b in fs'.owns[m] ==> b in fs'.owner && fs'.owner[b] == m
  {
    forall b | b in fs'.owner ensures 0 <= fs'.owner[b] < NR_INODES && b in fs'.owns[fs'.owner[b]] {
      if b in fs.owner && fs.owner[b] == nr {
        assert b in fs.owns[nr];
      }
    }
    forall m, b | 0 <= m < NR_INODES && b in fs'.owns[m] ensures b in fs'.owner && fs'.owner[b] == m {
      if m == nr {
        assert b in fs.owner ==> b in fs.owns[nr];
      } else {
        assert b in fs.owns[m] && fs.owner[b] == m;
      }
    }
  }

  /** An operation on inode nr that is fair, and leaves this inode in order, leaves the whole file system in order;
      the bytes of the other inodes do not change. */
  lemma StepOk(fs: Fs, nr: nat, t: State, fs': Fs)
    requires fs.Ok() && nr < NR_INODES && Fair(fs, nr, t) && Becomes(fs, nr, t, fs')
    requires t.Sound() && Filled(t) && 0 <= t.din.iSize <= MAX_FILE_SIZE && 0 <= t.din.iType <= 2
    requires forall m :: m in fs'.bits <==> if m == nr then t.din.iType != 0 else m in fs.bits
    requires t.din.iType == 0 ==> t.din == NoInode()
    ensures fs'.Ok()
    ensures forall off :: 0 <= off < MAX_FILE_SIZE ==> ByteAt(fs'.Of(nr), off) == ByteAt(t, off)
    ensures forall m: nat, off :: m < NR_INODES && m != nr && 0 <= off < MAX_FILE_SIZE ==>
              ByteAt(fs'.Of(m), off) == ByteAt(fs.Of(m), off)
  {
    hide Filled;
    OwnFrame(t, fs'.Of(nr));
    StepOwners(fs, nr, t, fs');
    forall m | 0 <= m < NR_INODES ensures fs'.Good(m) {
      if m != nr {
        OtherInode(fs, nr, t, fs', m);
        assert fs.Good(m);
      }
    }
    forall m: nat, off | m < NR_INODES && m != nr && 0 <= off < MAX_FILE_SIZE
      ensures ByteAt(fs'.Of(m), off) == ByteAt(fs.Of(m), off)
    {
      OtherInode(fs, nr, t, fs', m);
    }
  }

  // ---- Runs of operations ----

  datatype Op =
    | Write(nr: nat, buf: seq<Byte>, start: nat)
    | FailWrite(nr: nat, buf: seq<Byte>, start: nat, k: nat)
    | Create(nr: nat, iType: int)
    | Remove(nr: nat)

  /** What testfs_write_data ensures of a successful write; k is its last block, which read as `tail` before. */
  ghost predicate WriteDone(s: State, buf: seq<Byte>, start: nat, k: nat, tail: Block, t: State) {
    Done(s, buf, start, k, tail, t) && k == LastBlock(start, |buf|) &&
    (k > start / BLOCK_SIZE ==> TailKept(s, start / BLOCK_SIZE, k, tail)) &&
    t.din.iSize == Larger(start + |buf|, s.din.iSize)
  }

  function Larger(a: int, b: int): int {
    if a > b then a else b
  }

  /** From fs to fs' one operation was done: testfs_write_data of at least one byte, successful, or failed at block k
      in a way that keeps order, testfs_create_inode, or testfs_remove_inode. */
  ghost predicate Step(fs: Fs, op: Op, fs': Fs) {
    op.nr < |fs.inodes| == |fs.owns| &&
    var s := fs.Of(op.nr);
    match op
    case Write(nr, buf, start) =>
      nr in fs.bits && |buf| > 0 && fs'.bits == fs.bits && |fs'.used| == fs'.sb.usedBlockCount &&
      exists k, tail, t :: WriteDone(s, buf, start, k, tail, t) && Becomes(fs, nr, t, fs')
    case FailWrite(nr, buf, start, k) =>
      nr in fs.bits && |buf| > 0 && FailedWrite(fs, nr, buf, start, fs') && k == StopOf(s, |buf|, start) &&
      KeepsOrder(s, |buf|, start, k)
    case Create(nr, iType) =>
      nr !in fs.bits && 1 <= iType <= 2 && fs'.bits == fs.bits + {nr} &&
      Becomes(fs, nr, Typed(s, iType), fs')
    case Remove(nr) =>
      nr in fs.bits && fs'.bits == fs.bits - {nr} && |fs'.used| == fs'.sb.usedBlockCount &&
      exists gone, t :: Released(s, gone, t) && Becomes(fs, nr, Cleared(t), fs')
  }

  /** The inode's number taken and its type set */
  function Typed(s: State, iType: int): State {
    s.(din := s.din.(iType := iType), sb := s.sb.(usedInodeCount := s.sb.usedInodeCount + 1))
  }

  /** The inode zeroed and its number given back, after the release of its blocks */
  function Cleared(t: State): State {
    t.(din := NoInode(), own := map[], sb := t.sb.(usedInodeCount := t.sb.usedInodeCount - 1))
  }

  lemma CreateNext(fs: Fs, nr: nat, iType: int, fs': Fs)
    requires nr < |fs.inodes| == |fs.owns| && nr !in fs.bits && 1 <= iType <= 2 && |fs.disk| == DEVICE_BLOCKS
    requires fs' == Next(fs, nr, Typed(fs.Of(nr), iType), fs.disk, fs.bits + {nr})
    ensures Step(fs, Create(nr, iType), fs')
    ensures fs'.inodes == fs.inodes[nr := fs.inodes[nr].(iType := iType)] && fs'.bits == fs.bits + {nr} &&
            fs'.disk == fs.disk
    ensures fs'.used == fs.used && fs'.sb == fs.sb.(usedInodeCount := fs.sb.usedInodeCount + 1)
  {
  }

  lemma ReleasedInode(fs: Fs, nr: nat, gone: set<int>, t: State)
    requires Removable(fs, nr) && Released(fs.Of(nr), gone, t)
    ensures t.din.blockCount == 0
  {
    ReleasedExact(fs.Of(nr), gone, t);
  }

  lemma RemoveNext(fs: Fs, nr: nat, gone: set<int>, t: State, fs': Fs)
    requires nr < |fs.inodes| == |fs.owns| && nr in fs.bits && Released(fs.Of(nr), gone, t) &&
             |fs'.disk| == DEVICE_BLOCKS
    requires fs' == Next(fs, nr, Cleared(t), fs'.disk, fs.bits - {nr}) && |fs'.used| == fs'.sb.usedBlockCount
    requires forall b :: DATA_BLOCKS_START <= b < DEVICE_BLOCKS ==> fs'.disk[b] == t.disk[b]
    ensures Step(fs, Remove(nr), fs')
  {
    assert Becomes(fs, nr, Cleared(t), fs');
  }

  /** From fs to fs' a write failed: the counters are right, and the other files are as they were, but the pointers
      of this inode may not form a tree any more. */
  ghost predicate FailedWrite(fs: Fs, nr: nat, buf: seq<Byte>, start: nat, fs': Fs) {
    nr < |fs.inodes| == |fs.owns| && fs'.bits == fs.bits && |fs'.used| == fs'.sb.usedBlockCount &&
    exists k, t :: Stopped(fs.Of(nr), buf, start, k, t) && Becomes(fs, nr, t, fs')
  }

  lemma InodeBlocksWritten(s: State, buf: seq<Byte>, start: nat, k: nat, tail: Block, t: State, ret: int)
    requires if ret >= 0 then Done(s, buf, start, k, tail, t) else Partly(s, buf, start, k, t)
    ensures |s.disk| == |t.disk| == DEVICE_BLOCKS
    ensures forall b :: INODE_BLOCKS_START <= b < DATA_BLOCKS_START ==> t.disk[b] == s.disk[b]
  {
  }

  /** What testfs_write_data reports, and the state of the inode after it: it succeeds if and only if nothing blocks
      its last block. */
  ghost predicate Attempted(s: State, buf: seq<Byte>, start: nat, ret: int, k: nat, tail: Block, t: State) {
    (ret >= 0 <==> !Blocked(s, start / BLOCK_SIZE, LastBlock(start, |buf|))) &&
    if ret >= 0 then ret == |buf| && WriteDone(s, buf, start, k, tail, t)
    else ret == ErrorAt(StopOf(s, |buf|, start)) && Stopped(s, buf, start, k, t)
  }

  /** What cmd_write reports, and the file system after it. */
  ghost predicate CmdWrite(fs: Fs, nr: nat, buf: seq<Byte>, start: nat, ret: int, fs': Fs) {
    nr < |fs.inodes| == |fs.owns| &&
    var s := fs.Of(nr);
    (ret >= 0 <==> !Blocked(s, start / BLOCK_SIZE, LastBlock(start, |buf|))) &&
    if ret >= 0 then ret == |buf| && Step(fs, Write(nr, buf, start), fs')
    else ret == ErrorAt(StopOf(s, |buf|, start)) && FailedWrite(fs, nr, buf, start, fs')
  }

  lemma WriteStorable(fs: Fs, nr: nat, buf: seq<Byte>, start: nat, k: nat, tail: Block, t: State, ret: int)
    requires fs.Ok() && nr < NR_INODES && |t.used| <= NR_BLOCK_BITS
    requires Attempted(fs.Of(nr), buf, start, ret, k, tail, t)
    ensures Storable(t.din)
  {
    assert fs.Good(nr);
    if ret >= 0 {
      SoundPointersIn(t);
    }
    forall b | b in t.own.Keys ensures b in t.used {
    }
    assert |t.own.Keys| == |t.own|;
    SubsetSize(t.own.Keys, t.used);
  }

  lemma OkStorable(fs: Fs, nr: nat)
    requires fs.Ok() && nr < NR_INODES && |fs.used| <= NR_BLOCK_BITS
    ensures Storable(fs.inodes[nr])
  {
    assert fs.Good(nr);
    var s := fs.Of(nr);
    SoundPointersIn(s);
    forall b | b in s.own.Keys ensures b in s.used {
    }
    assert |s.own.Keys| == |s.own|;
    SubsetSize(s.own.Keys, s.used);
  }

  /** Only the inode blocks of the device are different: an inode was written to its slot. */
  ghost predicate Synced(fs: Fs, fs': Fs) {
    fs' == fs.(disk := fs'.disk) && |fs'.disk| == |fs.disk| &&
    forall b :: DATA_BLOCKS_START <= b < |fs.disk| ==> fs'.disk[b] == fs.disk[b]
  }

  lemma StepSynced(fs: Fs, op: Op, fs1: Fs, fs2: Fs)
    requires Step(fs, op, fs1) && Synced(fs1, fs2)
    ensures Step(fs, op, fs2)
  {
    match op
    case Write(nr, buf, start) =>
      var k, tail, t :| WriteDone(fs.Of(nr), buf, start, k, tail, t) && Becomes(fs, nr, t, fs1);
      assert Becomes(fs, nr, t, fs2);
    case FailWrite(nr, buf, start, k0) =>
      var k, t :| Stopped(fs.Of(nr), buf, start, k, t) && Becomes(fs, nr, t, fs1);
      assert Becomes(fs, nr, t, fs2);
    case Create(nr, iType) =>
    case Remove(nr) =>
      var gone, t :| Released(fs.Of(nr), gone, t) && Becomes(fs, nr, Cleared(t), fs1);
      assert Becomes(fs, nr, Cleared(t), fs2);
  }

  lemma CmdWriteSynced(fs: Fs, nr: nat, buf: seq<Byte>, start: nat, ret: int, fs1: Fs, fs2: Fs)
    requires CmdWrite(fs, nr, buf, start, ret, fs1) && Synced(fs1, fs2)
    ensures CmdWrite(fs, nr, buf, start, ret, fs2)
  {
    hide Blocked;
    hide StopOf;
    hide Stopped;
    hide Step;
    if ret >= 0 {
      StepSynced(fs, Write(nr, buf, start), fs1, fs2);
    } else {
      var k, t :| Stopped(fs.Of(nr), buf, start, k, t) && Becomes(fs, nr, t, fs1);
      assert Becomes(fs, nr, t, fs2);
    }
  }

  lemma WriteNext(fs: Fs, nr: nat, buf: seq<Byte>, start: nat, k: nat, tail: Block, t: State, ret: int, fs': Fs)
    requires nr < |fs.inodes| == |fs.owns| && nr in fs.bits && |buf| > 0 && |fs'.disk| == |t.disk| == DEVICE_BLOCKS
    requires fs' == Next(fs, nr, t, fs'.disk, fs.bits) && |fs'.used| == fs'.sb.usedBlockCount
    requires forall b :: DATA_BLOCKS_START <= b < DEVICE_BLOCKS ==> fs'.disk[b] == t.disk[b]
    requires Attempted(fs.Of(nr), buf, start, ret, k, tail, t)
    ensures CmdWrite(fs, nr, buf, start, ret, fs')
  {
    hide Blocked;
    hide StopOf;
    hide Done;
    hide Partly;
    hide TailKept;
    assert Becomes(fs, nr, t, fs');
  }

  lemma WriteOk(fs: Fs, nr: nat, buf: seq<Byte>, start: nat, k: nat, tail: Block, t: State, fs': Fs)
    requires fs.Ok() && nr < NR_INODES && nr in fs.bits && |buf| > 0
    requires WriteDone(fs.Of(nr), buf, start, k, tail, t) && Becomes(fs, nr, t, fs')
    requires fs'.bits == fs.bits && |fs'.used| == fs'.sb.usedBlockCount
    ensures fs'.Ok()
    ensures forall off :: 0 <= off < MAX_FILE_SIZE ==> ByteAt(fs'.Of(nr), off) == ByteAt(t, off)
    ensures forall m: nat, off :: m < NR_INODES && m != nr && 0 <= off < MAX_FILE_SIZE ==>
              ByteAt(fs'.Of(m), off) == ByteAt(fs.Of(m), off)
  {
    assert fs.Good(nr);
    WriteKeepsFilled(fs.Of(nr), buf, start, k, tail, t);
    WrittenFair(fs, nr, buf, start, k, tail, t);
    hide WriteDone;
    hide Filled;
    hide State.Sound;
    hide Fair;
    hide ByteAt;
    StepOk(fs, nr, t, fs');
  }

  lemma WrittenFair(fs: Fs, nr: nat, buf: seq<Byte>, start: nat, k: nat, tail: Block, t: State)
    requires fs.Ok() && nr < NR_INODES && nr in fs.bits && |buf| > 0
    requires WriteDone(fs.Of(nr), buf, start, k, tail, t) && |t.used| == t.sb.usedBlockCount
    ensures Fair(fs, nr, t) && t.Sound() && 0 <= t.din.iSize <= MAX_FILE_SIZE && t.din.iType == fs.inodes[nr].iType
  {
    hide Filled;
    hide ByteAt;
    hide BufferAt;
    hide TailKept;
    hide State.Sound;
    assert fs.Good(nr);
    forall b | b in fs.owns[nr] ensures b in t.own {
      assert b in fs.owns[nr].Keys;
    }
    assert t.Sound();
  }

  lemma NoPointers(disk: seq<Block>, s: Slot)
    requires s.Valid()
    ensures Ptr(disk, NoInode(), s) == 0
  {
  }

  /** A write that fails does no harm to any other file, and the used block count is still the number of allocated
      blocks, each of which has an owner. */
  lemma FailedWriteHarmless(fs: Fs, nr: nat, buf: seq<Byte>, start: nat, fs': Fs, m: nat)
    requires fs.Ok() && nr < NR_INODES && FailedWrite(fs, nr, buf, start, fs') && m < NR_INODES
    ensures |fs'.inodes| == |fs'.owns| == NR_INODES && fs'.inodes[m].blockCount == |fs'.owns[m]|
    ensures m != nr ==> fs'.Of(m).Sound() && Filled(fs'.Of(m)) && fs'.inodes[m] == fs.inodes[m]
    ensures m != nr ==> forall off :: 0 <= off < MAX_FILE_SIZE ==> ByteAt(fs'.Of(m), off) == ByteAt(fs.Of(m), off)
    ensures forall b :: b in fs'.used <==> b in fs'.owner
    ensures forall b :: b in fs'.owner ==> 0 <= fs'.owner[b] < NR_INODES && b in fs'.owns[fs'.owner[b]]
    ensures |fs'.used| == fs'.sb.usedBlockCount
  {
    assert fs.Good(nr) && fs.Good(m);
    var k, t :| Stopped(fs.Of(nr), buf, start, k, t) && Becomes(fs, nr, t, fs');
    StoppedFair(fs, nr, buf, start, k, t);
    StepOwners(fs, nr, t, fs');
    if m != nr {
      OtherInode(fs, nr, t, fs', m);
    }
  }

  /** The file system stays in order under a failed write if and only if the write stops in a way that keeps order. */
  lemma FailedWriteExact(fs: Fs, nr: nat, buf: seq<Byte>, start: nat, fs': Fs)
    requires fs.Ok() && nr < NR_INODES && nr in fs.bits && FailedWrite(fs, nr, buf, start, fs')
    ensures fs'.Ok() <==> KeepsOrder(fs.Of(nr), |buf|, start, StopOf(fs.Of(nr), |buf|, start))
  {
    assert fs.Good(nr);
    var k, t :| Stopped(fs.Of(nr), buf, start, k, t) && Becomes(fs, nr, t, fs');
    StoppedWhere(fs.Of(nr), buf, start, k, t);
    StoppedExact(fs.Of(nr), buf, start, k, t);
    if KeepsOrder(fs.Of(nr), |buf|, start, k) {
      FailOk(fs, nr, buf, start, k, t, fs');
    } else if fs'.Ok() {
      assert fs'.Good(nr);
      OwnFrame(fs'.Of(nr), t);
    }
  }

  lemma FailOk(fs: Fs, nr: nat, buf: seq<Byte>, start: nat, k: nat, t: State, fs': Fs)
    requires fs.Ok() && nr < NR_INODES && nr in fs.bits && Stopped(fs.Of(nr), buf, start, k, t) &&
             Becomes(fs, nr, t, fs')
    requires KeepsOrder(fs.Of(nr), |buf|, start, k) && fs'.bits == fs.bits && |fs'.used| == fs'.sb.usedBlockCount
    ensures fs'.Ok()
    ensures forall off :: 0 <= off < MAX_FILE_SIZE ==> ByteAt(fs'.Of(nr), off) == ByteAt(t, off)
    ensures forall m: nat, off :: m < NR_INODES && m != nr && 0 <= off < MAX_FILE_SIZE ==>
              ByteAt(fs'.Of(m), off) == ByteAt(fs.Of(m), off)
  {
    hide KeepsOrder;
    assert fs.Good(nr);
    StoppedExact(fs.Of(nr), buf, start, k, t);
    StoppedFair(fs, nr, buf, start, k, t);
    hide Fair;
    StepOk(fs, nr, t, fs');
  }

  lemma StoppedFair(fs: Fs, nr: nat, buf: seq<Byte>, start: nat, k: nat, t: State)
    requires fs.Ok() && nr < NR_INODES && Stopped(fs.Of(nr), buf, start, k, t) && |t.used| == t.sb.usedBlockCount
    ensures Fair(fs, nr, t)
  {
    forall b | b in fs.owns[nr] ensures b in t.own {
      assert b in fs.owns[nr].Keys;
    }
  }

  lemma EmptyTree(t: State)
    requires |t.disk| == DEVICE_BLOCKS && t.own == map[] && SamePointers(t.din, NoInode()) && t.din.blockCount == 0 &&
             t.din.iSize == 0
    ensures t.Sound() && Filled(t)
    ensures forall off :: 0 <= off < MAX_FILE_SIZE ==> ByteAt(t, off) == 0
  {
    forall s: Slot | s.Valid() ensures Ptr(t.disk, t.din, s) == 0 {
      NoPointers(t.disk, s);
    }
    forall off | 0 <= off < MAX_FILE_SIZE ensures ByteAt(t, off) == 0 {
      assert PhysicalBlock(t.disk, t.din, off / BLOCK_SIZE) == 0;
    }
  }

  lemma ClearedOwnsNothing(fs: Fs, nr: nat)
    requires fs.Ok() && nr < NR_INODES && nr !in fs.bits
    ensures fs.owns[nr] == map[]
  {
    assert fs.Good(nr);
    forall b ensures b !in fs.owns[nr] {
    }
  }

  lemma CreateOk(fs: Fs, nr: nat, iType: int, fs': Fs)
    requires fs.Ok() && nr < NR_INODES && Step(fs, Create(nr, iType), fs')
    ensures fs'.Ok()
    ensures forall off :: 0 <= off < MAX_FILE_SIZE ==> ByteAt(fs'.Of(nr), off) == 0
    ensures forall m: nat, off :: m < NR_INODES && m != nr && 0 <= off < MAX_FILE_SIZE ==>
              ByteAt(fs'.Of(m), off) == ByteAt(fs.Of(m), off)
  {
    assert fs.Good(nr);
    ClearedOwnsNothing(fs, nr);
    var t := Typed(fs.Of(nr), iType);
    EmptyTree(t);
    StepOk(fs, nr, t, fs');
  }

  lemma RemoveOk(fs: Fs, nr: nat, gone: set<int>, t: State, fs': Fs)
    requires fs.Ok() && nr < NR_INODES && nr in fs.bits
    requires Released(fs.Of(nr), gone, t) && Becomes(fs, nr, Cleared(t), fs')
    requires fs'.bits == fs.bits - {nr} && |fs'.used| == fs'.sb.usedBlockCount
    ensures fs'.Ok()
    ensures forall off :: 0 <= off < MAX_FILE_SIZE ==> ByteAt(fs'.Of(nr), off) == 0
    ensures forall m: nat, off :: m < NR_INODES && m != nr && 0 <= off < MAX_FILE_SIZE ==>
              ByteAt(fs'.Of(m), off) == ByteAt(fs.Of(m), off)
  {
    RemovedFair(fs, nr, gone, t);
    hide Released;
    hide Filled;
    hide State.Sound;
    hide Fair;
    hide ByteAt;
    EmptyTree(Cleared(t));
    StepOk(fs, nr, Cleared(t), fs');
  }

  lemma RemovedFair(fs: Fs, nr: nat, gone: set<int>, t: State)
    requires fs.Ok() && nr < NR_INODES && Released(fs.Of(nr), gone, t) && |t.used| == t.sb.usedBlockCount
    ensures Fair(fs, nr, Cleared(t)) && |t.disk| == DEVICE_BLOCKS
  {
    assert fs.Good(nr);
    ReleasedAll(fs.Of(nr), gone, t);
    hide Filled;
    hide State.Sound;
    assert forall b :: b in fs.owns[nr].Keys <==> b in fs.owns[nr];
  }

  lemma StepKeepsOk(fs: Fs, op: Op, fs': Fs)
    requires fs.Ok() && Step(fs, op, fs')
    ensures fs'.Ok()
  {
    match op
    case Write(nr, buf, start) =>
      var k, tail, t :| WriteDone(fs.Of(nr), buf, start, k, tail, t) && Becomes(fs, nr, t, fs');
      WriteOk(fs, nr, buf, start, k, tail, t, fs');
    case FailWrite(nr, buf, start, _) =>
      FailedWriteExact(fs, nr, buf, start, fs');
    case Create(nr, iType) =>
      CreateOk(fs, nr, iType, fs');
    case Remove(nr) =>
      var gone, t :| Released(fs.Of(nr), gone, t) && Becomes(fs, nr, Cleared(t), fs');
      RemoveOk(fs, nr, gone, t, fs');
  }

  /** A write spoils no block that it covers only in part. */
  ghost predicate Plain(fs: Fs, op: Op) {
    op.nr < |fs.inodes| == |fs.owns| &&
    var s := fs.Of(op.nr);
    match op
    case Write(_, buf, start) =>
      !HeadSpoiled(s, |buf|, start) && !TailSpoiled(s, |buf|, start, LastBlock(start, |buf|))
    case FailWrite(_, buf, start, k) => k == start / BLOCK_SIZE || !HeadSpoiled(s, |buf|, start)
    case _ => true
  }

  /** The bytes that op writes */
  function OpBytes(op: Op): seq<Byte>
    requires op.Write? || op.FailWrite?
  {
    match op
    case Write(_, buf, _) => buf
    case FailWrite(_, buf, start, k) => Before(buf, start, k)
  }

  /** Byte `off` of file nr after op, if it was b before: files as plain byte arrays. */
  function ByteAfter(op: Op, nr: nat, off: nat, b: Byte): Byte {
    if op.nr != nr || op.Create? then b
    else if op.Remove? then 0
    else if op.start <= off < op.start + |OpBytes(op)| then OpBytes(op)[off - op.start]
    else b
  }

  /** The size of file nr after op, if it was `size` before. */
  function SizeAfter(op: Op, nr: nat, size: int): int {
    match op
    case Write(n, buf, start) => if n == nr then Larger(start + |buf|, size) else size
    case FailWrite(n, buf, start, k) =>
      if n == nr && start / BLOCK_SIZE < k == LastBlock(start, |buf|) then MAX_FILE_SIZE else size
    case Create(_, _) => size
    case Remove(n) => if n == nr then 0 else size
  }

  /** The state that the inode of a write or of a failed write comes into */
  ghost predicate Wrote(fs: Fs, op: Op, fs': Fs, t: State) {
    op.nr < |fs.inodes| == |fs.owns| && Becomes(fs, op.nr, t, fs') &&
    var s := fs.Of(op.nr);
    match op
    case Write(_, buf, start) => exists k, tail :: WriteDone(s, buf, start, k, tail, t)
    case FailWrite(_, buf, start, k) => Stopped(s, buf, start, k, t)
    case _ => false
  }

  lemma WroteBytes(fs: Fs, op: Op, fs': Fs, t: State)
    requires fs.Ok() && op.nr < NR_INODES && Wrote(fs, op, fs', t)
    ensures Plain(fs, op) ==> ArrayWritten(fs.Of(op.nr), OpBytes(op), op.start, t)
    ensures ArrayWritten(fs.Of(op.nr), OpBytes(op), op.start, t) && (op.Write? ==> (op.start + |op.buf|) % 4 == 0) ==>
              Plain(fs, op)
  {
    hide HeadSpoiled;
    hide TailSpoiled;
    hide TailChanged;
    hide ArrayWritten;
    hide Partly;
    hide Done;
    hide TailKept;
    assert fs.Good(op.nr);
    var s := fs.Of(op.nr);
    match op
    case Write(_, buf, start) =>
      var k, tail :| WriteDone(s, buf, start, k, tail, t);
      WritesExact(s, buf, start, k, tail, t);
      TailForeseen(s, |buf|, start, k, tail);
    case FailWrite(_, buf, start, k) =>
      StoppedBytesExact(s, buf, start, k, t);
  }

  lemma WroteState(fs: Fs, op: Op, fs': Fs) returns (t: State)
    requires fs.Ok() && (op.Write? || op.FailWrite?) && Step(fs, op, fs')
    ensures Wrote(fs, op, fs', t) && t.din.iSize == SizeAfter(op, op.nr, fs.inodes[op.nr].iSize)
    ensures forall off :: 0 <= off < MAX_FILE_SIZE ==> ByteAt(fs'.Of(op.nr), off) == ByteAt(t, off)
    ensures forall m: nat, off :: m < NR_INODES && m != op.nr && 0 <= off < MAX_FILE_SIZE ==>
              ByteAt(fs'.Of(m), off) == ByteAt(fs.Of(m), off)
  {
    hide Done;
    hide TailKept;
    hide KeepsOrder;
    hide Partly;
    match op
    case Write(nr, buf, start) =>
      var k, tail, t' :| WriteDone(fs.Of(nr), buf, start, k, tail, t') && Becomes(fs, nr, t', fs');
      t := t';
      WriteOk(fs, nr, buf, start, k, tail, t, fs');
    case FailWrite(nr, buf, start, k) =>
      var j, t' :| Stopped(fs.Of(nr), buf, start, j, t') && Becomes(fs, nr, t', fs');
      t := t';
      StoppedWhere(fs.Of(nr), buf, start, j, t);
      FailOk(fs, nr, buf, start, k, t, fs');
  }

  lemma StepInode(fs: Fs, op: Op, fs': Fs)
    requires fs.Ok() && Step(fs, op, fs')
    ensures op.nr < NR_INODES
  {
  }

  lemma WroteInodes(fs: Fs, op: Op, fs': Fs, t: State)
    requires Wrote(fs, op, fs', t)
    ensures op.nr < |fs.inodes| && fs'.inodes == fs.inodes[op.nr := t.din] && |fs'.owns| == |fs.owns|
  {
  }

  lemma WroteByte(s: State, buf: seq<Byte>, start: nat, t: State, off: nat)
    requires ArrayWritten(s, buf, start, t) && off < MAX_FILE_SIZE
    ensures ByteAt(t, off) == if start <= off < start + |buf| then buf[off - start] else ByteAt(s, off)
  {
  }

  /** A write changes the other files in no way, and of its own file what WroteBytes says. */
  lemma WriteAsArrays(fs: Fs, op: Op, fs': Fs, nr: nat, off: nat)
    requires fs.Ok() && (op.Write? || op.FailWrite?) && Step(fs, op, fs') && nr < NR_INODES && off < MAX_FILE_SIZE
    ensures |fs'.inodes| == |fs'.owns| == NR_INODES
    ensures Plain(fs, op) ==> ByteAt(fs'.Of(nr), off) == ByteAfter(op, nr, off, ByteAt(fs.Of(nr), off))
    ensures fs'.inodes[nr].iSize == SizeAfter(op, nr, fs.inodes[nr].iSize)
  {
    hide Step;
    hide Plain;
    hide ArrayWritten;
    hide OpBytes;
    hide Fs.Ok;
    hide SizeAfter;
    hide Wrote;
    hide ByteAt;
    OkBits(fs);
    StepInode(fs, op, fs');
    var t := WroteState(fs, op, fs');
    WroteInodes(fs, op, fs', t);
    SizeElsewhere(op, nr, fs.inodes[nr].iSize);
    if Plain(fs, op) && nr == op.nr {
      WroteBytes(fs, op, fs', t);
      WroteByte(fs.Of(nr), OpBytes(op), op.start, t, off);
    }
  }

  lemma SizeElsewhere(op: Op, nr: nat, size: int)
    ensures op.nr != nr ==> SizeAfter(op, nr, size) == size
  {
  }

  lemma CreateAsArrays(fs: Fs, op: Op, fs': Fs, nr: nat, off: nat)
    requires fs.Ok() && op.Create? && Step(fs, op, fs') && nr < NR_INODES && off < MAX_FILE_SIZE
    ensures |fs'.inodes| == |fs'.owns| == NR_INODES
    ensures ByteAt(fs'.Of(nr), off) == ByteAt(fs.Of(nr), off)
    ensures fs'.inodes[nr].iSize == fs.inodes[nr].iSize
  {
    CreateOk(fs, op.nr, op.iType, fs');
    if op.nr == nr {
      assert fs.Good(nr);
      ClearedOwnsNothing(fs, nr);
      EmptyTree(fs.Of(nr));
    }
  }

  lemma RemoveAsArrays(fs: Fs, op: Op, fs': Fs, nr: nat, off: nat)
    requires fs.Ok() && op.Remove? && Step(fs, op, fs') && nr < NR_INODES && off < MAX_FILE_SIZE
    ensures |fs'.inodes| == |fs'.owns| == NR_INODES
    ensures ByteAt(fs'.Of(nr), off) == if op.nr == nr then 0 else ByteAt(fs.Of(nr), off)
    ensures fs'.inodes[nr].iSize == if op.nr == nr then 0 else fs.inodes[nr].iSize
  {
    var n := op.nr;
    var gone, t :| Released(fs.Of(n), gone, t) && Becomes(fs, n, Cleared(t), fs');
    RemoveOk(fs, n, gone, t, fs');
  }

  /** One operation changes exactly what it would change in plain byte arrays, in its own file and in all others. */
  lemma StepAsArrays(fs: Fs, op: Op, fs': Fs, nr: nat, off: nat)
    requires fs.Ok() && Step(fs, op, fs') && Plain(fs, op) && nr < NR_INODES && off < MAX_FILE_SIZE
    ensures |fs'.inodes| == |fs'.owns| == NR_INODES
    ensures ByteAt(fs'.Of(nr), off) == ByteAfter(op, nr, off, ByteAt(fs.Of(nr), off))
    ensures fs'.inodes[nr].iSize == SizeAfter(op, nr, fs.inodes[nr].iSize)
  {
    hide Step;
    hide Plain;
    match op
    case Write(_, _, _) => WriteAsArrays(fs, op, fs', nr, off);
    case FailWrite(_, _, _, _) => WriteAsArrays(fs, op, fs', nr, off);
    case Create(_, _) => CreateAsArrays(fs, op, fs', nr, off);
    case Remove(_) => RemoveAsArrays(fs, op, fs', nr, off);
  }

  /** And that is all: an operation that is not plain changes some byte it should not. (Of a write that ends within a
      word of four bytes, the caller cannot tell: what the bytes of that word become depends on a block number.) */
  lemma StepExact(fs: Fs, op: Op, fs': Fs)
    requires fs.Ok() && Step(fs, op, fs') && (op.Write? ==> (op.start + |op.buf|) % 4 == 0)
    ensures |fs'.inodes| == |fs'.owns| == NR_INODES
    ensures Plain(fs, op) <==> forall nr: nat, off :: nr < NR_INODES && 0 <= off < MAX_FILE_SIZE ==>
                                 ByteAt(fs'.Of(nr), off) == ByteAfter(op, nr, off, ByteAt(fs.Of(nr), off))
  {
    hide Step;
    hide Plain;
    StepKeepsOk(fs, op, fs');
    OkBits(fs);
    OkBits(fs');
    StepInode(fs, op, fs');
    hide Fs.Ok;
    if Plain(fs, op) {
      forall nr: nat, off | nr < NR_INODES && 0 <= off < MAX_FILE_SIZE
        ensures ByteAt(fs'.Of(nr), off) == ByteAfter(op, nr, off, ByteAt(fs.Of(nr), off))
      {
        StepAsArrays(fs, op, fs', nr, off);
      }
    } else if forall nr: nat, off :: nr < NR_INODES && 0 <= off < MAX_FILE_SIZE ==>
                ByteAt(fs'.Of(nr), off) == ByteAfter(op, nr, off, ByteAt(fs.Of(nr), off)) {
      NotPlain(fs, op, fs');
    }
  }

  lemma AlwaysPlain(fs: Fs, op: Op, fs': Fs)
    requires Step(fs, op, fs') && (op.Create? || op.Remove?)
    ensures Plain(fs, op)
  {
  }

  lemma AfterIsArray(op: Op, s: State, s': State, t: State)
    requires op.Write? || op.FailWrite?
    requires forall off :: 0 <= off < MAX_FILE_SIZE ==> ByteAt(s', off) == ByteAfter(op, op.nr, off, ByteAt(s, off))
    requires forall off :: 0 <= off < MAX_FILE_SIZE ==> ByteAt(s', off) == ByteAt(t, off)
    ensures ArrayWritten(s, OpBytes(op), op.start, t)
  {
    hide OpBytes;
    hide ByteAt;
    forall off | 0 <= off < MAX_FILE_SIZE
      ensures ByteAt(t, off) == if op.start <= off < op.start + |OpBytes(op)| then OpBytes(op)[off - op.start]
              else ByteAt(s, off)
    {
      assert ByteAt(s', off) == ByteAt(t, off);
    }
  }

  lemma NotPlain(fs: Fs, op: Op, fs': Fs)
    requires fs.Ok() && Step(fs, op, fs') && (op.Write? ==> (op.start + |op.buf|) % 4 == 0) &&
             |fs'.inodes| == |fs'.owns| == NR_INODES
    requires op.nr < NR_INODES == |fs.inodes| == |fs.owns|
    requires forall off :: 0 <= off < MAX_FILE_SIZE ==>
               ByteAt(fs'.Of(op.nr), off) == ByteAfter(op, op.nr, off, ByteAt(fs.Of(op.nr), off))
    ensures Plain(fs, op)
  {
    hide Step;
    hide Plain;
    hide OpBytes;
    hide Fs.Ok;
    hide ByteAt;
    hide ByteAfter;
    hide ArrayWritten;
    hide Wrote;
    if op.Write? || op.FailWrite? {
      var t := WroteState(fs, op, fs');
      AfterIsArray(op, fs.Of(op.nr), fs'.Of(op.nr), t);
      WroteBytes(fs, op, fs', t);
    } else {
      AlwaysPlain(fs, op, fs');
    }
  }

  /** The states of a run: each follows from the one before it by the operation of the same index. */
  ghost predicate Run(states: seq<Fs>, ops: seq<Op>) {
    |states| == |ops| + 1 && forall i :: 0 <= i < |ops| ==> Step(states[i], ops[i], states[i + 1])
  }

  function ReplayByte(ops: seq<Op>, nr: nat, off: nat, b: Byte): Byte {
    if ops == [] then b else ByteAfter(ops[|ops| - 1], nr, off, ReplayByte(ops[..|ops| - 1], nr, off, b))
  }

  function ReplaySize(ops: seq<Op>, nr: nat, size: int): int {
    if ops == [] then size else SizeAfter(ops[|ops| - 1], nr, ReplaySize(ops[..|ops| - 1], nr, size))
  }

  /** Every state of a run is in order: no block is shared, lost, or miscounted, and every file can be removed. */
  lemma {:induction false} RunKeepsOk(states: seq<Fs>, ops: seq<Op>)
    requires Run(states, ops) && states[0].Ok()
    ensures states[|ops|].Ok()
  {
    var n := |ops|;
    if n > 0 {
      RunKeepsOk(states[..n], ops[..n - 1]);
      StepKeepsOk(states[n - 1], ops[n - 1], states[n]);
    }
  }

  /** The file system that mktestfs makes: no inode and no block in use */
  function Fresh(disk: seq<Block>, sb: DSuperBlock): (fs: Fs)
    ensures |fs.inodes| == |fs.owns| == NR_INODES
    ensures forall nr :: 0 <= nr < NR_INODES ==> fs.inodes[nr] == NoInode() && fs.owns[nr] == map[]
  {
    Fs(disk, sb, {}, {}, seq(NR_INODES, _ => NoInode()), seq(NR_INODES, _ => map[]), map[])
  }

  /** It is in order, and every file of it is empty. */
  lemma FreshOk(disk: seq<Block>, sb: DSuperBlock)
    requires |disk| == DEVICE_BLOCKS && sb.usedBlockCount == 0
    ensures Fresh(disk, sb).Ok()
    ensures forall nr: nat, off :: nr < NR_INODES && 0 <= off < MAX_FILE_SIZE ==>
              ByteAt(Fresh(disk, sb).Of(nr), off) == 0
  {
    hide Fresh;
    hide Filled;
    hide State.Sound;
    var fs := Fresh(disk, sb);
    FreshParts(disk, sb);
    forall nr | 0 <= nr < NR_INODES ensures fs.Good(nr) {
      EmptyTree(fs.Of(nr));
    }
    forall nr: nat, off | nr < NR_INODES && 0 <= off < MAX_FILE_SIZE ensures ByteAt(fs.Of(nr), off) == 0 {
      EmptyTree(fs.Of(nr));
    }
  }

  lemma FreshParts(disk: seq<Block>, sb: DSuperBlock)
    ensures var fs := Fresh(disk, sb);
            fs.disk == disk && fs.sb == sb && fs.used == {} && fs.bits == {} && fs.owner == map[]
  {
  }

  /** After any run of plain operations, every file reads as the byte array that the same operations make of the one
      it was. */
  lemma {:induction false} RunAsArrays(states: seq<Fs>, ops: seq<Op>, nr: nat, off: nat)
    requires Run(states, ops) && states[0].Ok() && nr < NR_INODES && off < MAX_FILE_SIZE
    requires forall i :: 0 <= i < |ops| ==> Plain(states[i], ops[i])
    ensures states[|ops|].Ok()
    ensures ByteAt(states[|ops|].Of(nr), off) == ReplayByte(ops, nr, off, ByteAt(states[0].Of(nr), off))
    ensures states[|ops|].inodes[nr].iSize == ReplaySize(ops, nr, states[0].inodes[nr].iSize)
  {
    var n := |ops|;
    if n > 0 {
      RunAsArrays(states[..n], ops[..n - 1], nr, off);
      StepKeepsOk(states[n - 1], ops[n - 1], states[n]);
      StepAsArrays(states[n - 1], ops[n - 1], states[n], nr, off);
    }
  }

  /** Every state that a new file system comes to is in order, and if the operations were plain, each file reads as
      the byte array that they make of the empty one. */
  lemma FromFresh(states: seq<Fs>, ops: seq<Op>, disk: seq<Block>, sb: DSuperBlock, i: nat)
    requires Run(states, ops) && |disk| == DEVICE_BLOCKS && sb.usedBlockCount == 0 && states[0] == Fresh(disk, sb) &&
             i <= |ops|
    ensures states[i].Ok()
    ensures (forall j :: 0 <= j < i ==> Plain(states[j], ops[j])) ==>
              forall nr: nat, off: nat :: nr < NR_INODES && off < MAX_FILE_SIZE ==>
                ByteAt(states[i].Of(nr), off) == ReplayByte(ops[..i], nr, off, 0) &&
                states[i].inodes[nr].iSize == ReplaySize(ops[..i], nr, 0)
  {
    hide Step;
    hide Plain;
    FreshOk(disk, sb);
    RunKeepsOk(states[..i + 1], ops[..i]);
    if forall j :: 0 <= j < i ==> Plain(states[j], ops[j]) {
      forall nr: nat, off: nat | nr < NR_INODES && off < MAX_FILE_SIZE
        ensures ByteAt(states[i].Of(nr), off) == ReplayByte(ops[..i], nr, off, 0)
        ensures states[i].inodes[nr].iSize == ReplaySize(ops[..i], nr, 0)
      {
        RunAsArrays(states[..i + 1], ops[..i], nr, off);
      }
    }
  }
}
