/** fs/read_write.c: the byte array of a file. */
module FileData {
  import opened Bytes
  import opened Bitmaps
  import opened Super
  import opened BlockMap
  import opened ReadWrite

  const MAX_FILE_SIZE: nat := 34376597504

  // A block number must fit the int parameter of testfs_read_block, and a byte count the int result of
  // testfs_write_data.
  const MAX_OFFSET: nat := 0x1000_0000_0000
  const MAX_TRANSFER: nat := 0x8000_0000

  /** Byte `off` of the file, of which holes are zero, whether or not it lies within the file size. */
  function ByteAt(s: State, off: nat): Byte
    requires off < MAX_FILE_SIZE
  {
    BlockBytes(s.disk, s.din, off / BLOCK_SIZE)[off % BLOCK_SIZE]
  }

  /** Byte `off` as testfs_read_block delivers it. */
  function BufferAt(s: State, off: nat): Byte
    requires off < MAX_FILE_SIZE
  {
    ReadBuffer(s.disk, s.din, off / BLOCK_SIZE)[off % BLOCK_SIZE]
  }

  /** Slot s lies on the path to one of the logical blocks first..last-1. */
  predicate InSpan(s: Slot, first: nat, last: nat) {
    match s
    case Direct(i) => first <= i < last
    case Indirect => first < last && first < DOUBLE_START && NR_DIRECT_BLOCKS < last
    case IndirectEntry(i) => first <= NR_DIRECT_BLOCKS + i < last
    case Double => first < last && DOUBLE_START < last
    case Table(p) =>
      first < last && first < DOUBLE_START + (p + 1) * NR_INDIRECT_BLOCKS &&
      DOUBLE_START + p * NR_INDIRECT_BLOCKS < last
    case TableEntry(p, q) => first <= DOUBLE_START + p * NR_INDIRECT_BLOCKS + q < last
  }

  lemma OnPathInSpan(s: Slot, n: nat, first: nat, last: nat)
    requires n < MAX_FILE_BLOCKS && OnPath(s, n) && first <= n < last
    ensures InSpan(s, first, last)
  {
  }

  lemma SpanGrows(s: Slot, first: nat, last: nat, last': nat)
    requires InSpan(s, first, last) && last <= last'
    ensures InSpan(s, first, last')
  {
  }

  /** 1 if the table of slot r has to be taken for a block, after the blocks first..k-1, and 0 if it is there by then */
  function NewTable(s: State, r: Slot, first: nat, k: nat): nat {
    if Ptr(s.disk, s.din, r) == 0 && !InSpan(r, first, k) then 1 else 0
  }

  /** How many blocks a write takes for logical block k, after the blocks first..k-1 */
  function NeedAt(s: State, first: nat, k: nat): nat {
    if k >= MAX_FILE_BLOCKS || PhysicalBlock(s.disk, s.din, k) != 0 then 0
    else if k < NR_DIRECT_BLOCKS then 1
    else if k < DOUBLE_START then 1 + NewTable(s, Indirect, first, k)
    else 1 + NewTable(s, Double, first, k) + NewTable(s, SlotOf(k).Parent(), first, k)
  }

  /** How many blocks a write takes for the logical blocks first..k-1 */
  function NeedSpan(s: State, first: nat, k: nat): nat
    decreases k
  {
    if k <= first then 0 else NeedSpan(s, first, k - 1) + NeedAt(s, first, k - 1)
  }

  /** A write that starts at block `first` cannot get past block k: the file would be too big, or there is not enough
      room. */
  predicate Blocked(s: State, first: nat, k: nat) {
    k >= MAX_FILE_BLOCKS || Room(s.sb) < NeedSpan(s, first, k + 1)
  }

  /** The last block that a write touches */
  function LastBlock(start: nat, n: nat): nat {
    if n == 0 then start / BLOCK_SIZE else (start + n - 1) / BLOCK_SIZE
  }

  lemma LastBlockIs(start: nat, n: nat, k: nat)
    requires start / BLOCK_SIZE <= k && k * BLOCK_SIZE <= start + n <= (k + 1) * BLOCK_SIZE
    requires k > start / BLOCK_SIZE ==> k * BLOCK_SIZE < start + n
    ensures k == LastBlock(start, n)
  {
  }

  lemma NotPastLast(start: nat, n: nat, k: nat)
    requires k == start / BLOCK_SIZE || k * BLOCK_SIZE < start + n
    ensures k <= LastBlock(start, n)
  {
  }

  /** The error of a write that cannot get past block k */
  function ErrorAt(k: nat): int {
    if k >= MAX_FILE_BLOCKS then -EFBIG else -ENOSPC
  }

  lemma {:induction false} BlockedLater(s: State, first: nat, j: nat, k: nat)
    requires first <= j <= k && Blocked(s, first, j)
    ensures Blocked(s, first, k)
    decreases k
  {
    if j < k {
      BlockedLater(s, first, j, k - 1);
    }
  }

  /** Where a write of the blocks j..last stops: at the first block that it cannot get past, or at the last */
  function StopAt(s: State, first: nat, j: nat, last: nat): (k: nat)
    requires first <= j <= last
    ensures j <= k <= last && (k == last || Blocked(s, first, k))
    ensures forall i :: j <= i < k ==> !Blocked(s, first, i)
    decreases last - j
  {
    if j == last || Blocked(s, first, j) then j else StopAt(s, first, j + 1, last)
  }

  /** Where the whole write stops */
  function StopOf(s: State, size: nat, start: nat): (k: nat)
    ensures start / BLOCK_SIZE <= k <= LastBlock(start, size)
  {
    StopAt(s, start / BLOCK_SIZE, start / BLOCK_SIZE, LastBlock(start, size))
  }

  lemma StopsThere(s: State, size: nat, start: nat, k: nat)
    requires start / BLOCK_SIZE <= k <= LastBlock(start, size) && Blocked(s, start / BLOCK_SIZE, k)
    requires k > start / BLOCK_SIZE ==> !Blocked(s, start / BLOCK_SIZE, k - 1)
    ensures StopOf(s, size, start) == k
  {
    var first, j := start / BLOCK_SIZE, StopOf(s, size, start);
    if j < k {
      BlockedLater(s, first, j, k - 1);
    }
  }

  /** What testfs_write_data has done after the logical blocks from that of `start` up to but not including k. */
  ghost predicate Progress(s: State, buf: seq<Byte>, start: nat, k: nat, t: State) {
    var first := start / BLOCK_SIZE;
    first <= k && k * BLOCK_SIZE <= start + |buf| && Spanned(s, first, k, t) && t.din.iSize == s.din.iSize &&
    forall off :: 0 <= off < MAX_FILE_SIZE ==>
      ByteAt(t, off) == if start <= off < k * BLOCK_SIZE then buf[off - start]
                        else if off / BLOCK_SIZE == first < k then BufferAt(s, off)
                        else ByteAt(s, off)
  }

  /** The part of buf that falls into logical block k. */
  function Chunk(buf: seq<Byte>, start: nat, k: nat): (c: seq<Byte>)
    requires start / BLOCK_SIZE <= k && k * BLOCK_SIZE <= start + |buf|
    ensures ChunkAt(start, k) + |c| <= BLOCK_SIZE
  {
    var lo := if k * BLOCK_SIZE <= start then 0 else k * BLOCK_SIZE - start;
    var hi := if (k + 1) * BLOCK_SIZE - start <= |buf| then (k + 1) * BLOCK_SIZE - start else |buf|;
    buf[lo..hi]
  }

  /** The offset of that part in block k. */
  function ChunkAt(start: nat, k: nat): nat
    requires start / BLOCK_SIZE <= k
  {
    if k * BLOCK_SIZE <= start then start % BLOCK_SIZE else 0
  }

  /** Byte `off` after block k, which reads as `base`, got its part of buf. */
  lemma ChunkByte(base: Block, buf: seq<Byte>, start: nat, k: nat, off: nat)
    requires start / BLOCK_SIZE <= k && k * BLOCK_SIZE <= start + |buf| && off / BLOCK_SIZE == k
    ensures Splice(base, ChunkAt(start, k), Chunk(buf, start, k))[off % BLOCK_SIZE] ==
            if start <= off < start + |buf| then buf[off - start] else base[off % BLOCK_SIZE]
  {
  }

  lemma ProgressStart(s: State, buf: seq<Byte>, start: nat)
    requires s.Sound() && start / BLOCK_SIZE <= MAX_FILE_BLOCKS
    ensures Progress(s, buf, start, start / BLOCK_SIZE, s)
  {
  }

  /** The inode gained only blocks on the paths to the logical blocks first..k-1, and these are mapped. */
  ghost predicate Spanned(s: State, first: nat, k: nat, t: State) {
    k <= MAX_FILE_BLOCKS && Gained(s, t) && |t.own| == |s.own| + NeedSpan(s, first, k) &&
    (forall b :: b in t.own && b !in s.own ==> InSpan(t.own[b], first, k)) &&
    (forall m :: first <= m < k ==> PhysicalBlock(t.disk, t.din, m) != 0)
  }

  lemma GainedTransitive(s: State, t: State, r: State)
    requires Gained(s, t) && Gained(t, r)
    ensures Gained(s, r)
  {
    forall b | b in r.own && b !in s.own ensures b !in s.used {
      assert b !in t.own ==> b !in t.used;
    }
  }

  /** A slot off the paths to the blocks first..k-1 keeps its pointer, and so does a slot that has one. */
  lemma KeptPointer(s: State, first: nat, k: nat, t: State, r: Slot)
    requires s.Sound() && Spanned(s, first, k, t) && r.Valid()
    ensures Ptr(s.disk, s.din, r) >= 0 && Ptr(t.disk, t.din, r) >= 0
    ensures Ptr(s.disk, s.din, r) != 0 || !InSpan(r, first, k) ==> Ptr(t.disk, t.din, r) == Ptr(s.disk, s.din, r)
  {
    var was, now := Ptr(s.disk, s.din, r), Ptr(t.disk, t.din, r);
    assert was != 0 ==> was in s.own && s.own[was] == r && t.own[was] == r;
    assert now != 0 ==> now in t.own && t.own[now] == r;
    assert now in s.own ==> Ptr(s.disk, s.din, s.own[now]) == now;
  }

  /** A table on the path to one of the blocks first..k-1 is there. */
  lemma TableThere(s: State, first: nat, k: nat, t: State, r: Slot)
    requires Spanned(s, first, k, t) && r.Valid() && r.IsTable() && InSpan(r, first, k)
    ensures Ptr(t.disk, t.din, r) != 0
  {
    var m :=
      match r
      case Indirect => if first < NR_DIRECT_BLOCKS then NR_DIRECT_BLOCKS else first
      case Double => if first < DOUBLE_START then DOUBLE_START else first
      case Table(p) => if first < DOUBLE_START + p * NR_INDIRECT_BLOCKS then DOUBLE_START + p * NR_INDIRECT_BLOCKS
        else first;
    assert PhysicalBlock(t.disk, t.din, m) != 0;
    if r.Table? {
      SlotOfPrevious(m, r.p, m - DOUBLE_START - r.p * NR_INDIRECT_BLOCKS);
    }
  }

  /** What the next block takes is what the count for it says. */
  lemma TakesNow(s: State, first: nat, k: nat, t: State)
    requires s.Sound() && Spanned(s, first, k, t) && first <= k < MAX_FILE_BLOCKS
    ensures Takes(t, k) == NeedAt(s, first, k)
    ensures PhysicalBlock(t.disk, t.din, k) == PhysicalBlock(s.disk, s.din, k)
  {
    KeptPointer(s, first, k, t, SlotOf(k));
    assert !InSpan(SlotOf(k), first, k) by {
      if k >= DOUBLE_START {
        SlotOfPrevious(k, SlotOf(k).p, SlotOf(k).q);
      }
    }
    if k >= DOUBLE_START {
      TableNow(s, first, k, t, Double);
      TableNow(s, first, k, t, SlotOf(k).Parent());
    } else if k >= NR_DIRECT_BLOCKS {
      TableNow(s, first, k, t, Indirect);
    }
  }

  lemma TableNow(s: State, first: nat, k: nat, t: State, r: Slot)
    requires s.Sound() && Spanned(s, first, k, t) && r.Valid() && r.IsTable()
    ensures Ptr(t.disk, t.din, r) == 0 <==> NewTable(s, r, first, k) == 1
  {
    KeptPointer(s, first, k, t, r);
    if InSpan(r, first, k) {
      TableThere(s, first, k, t, r);
    }
  }

  lemma SpannedStep(s: State, first: nat, k: nat, t: State, at: nat, src: seq<Byte>, r: State)
    requires s.Sound() && Spanned(s, first, k, t) && first <= k < MAX_FILE_BLOCKS
    requires at + |src| <= BLOCK_SIZE && Written(t, k, at, src, r)
    ensures Spanned(s, first, k + 1, r)
  {
    GainedTransitive(s, t, r);
    TakesNow(s, first, k, t);
    forall b | b in r.own && b !in s.own ensures InSpan(r.own[b], first, k + 1) {
      if b in t.own {
        SpanGrows(t.own[b], first, k, k + 1);
      } else {
        OnPathInSpan(r.own[b], k, first, k + 1);
      }
    }
    forall m | first <= m < k + 1 ensures PhysicalBlock(r.disk, r.din, m) != 0 {
      if m != k {
        GainedPointer(t, r, m);
      }
    }
  }

  lemma WrittenByte(t: State, k: nat, buf: seq<Byte>, start: nat, r: State, off: nat)
    requires start / BLOCK_SIZE <= k < MAX_FILE_BLOCKS && k * BLOCK_SIZE <= start + |buf| && off < MAX_FILE_SIZE
    requires Written(t, k, ChunkAt(start, k), Chunk(buf, start, k), r)
    ensures ByteAt(r, off) == if off / BLOCK_SIZE != k then ByteAt(t, off)
                              else if start <= off < start + |buf| then buf[off - start]
                              else BufferAt(t, off)
  {
    var m := off / BLOCK_SIZE;
    if m == k {
      ChunkByte(ReadBuffer(t.disk, t.din, k), buf, start, k, off);
    } else {
      assert BlockBytes(r.disk, r.din, m) == BlockBytes(t.disk, t.din, m);
    }
  }

  /** One more block, filled up to its end. */
  lemma ProgressStep(s: State, buf: seq<Byte>, start: nat, k: nat, t: State, r: State)
    requires s.Sound() && Progress(s, buf, start, k, t) && k < MAX_FILE_BLOCKS && (k == start / BLOCK_SIZE ==> t == s)
    requires (k + 1) * BLOCK_SIZE <= start + |buf|
    requires Written(t, k, ChunkAt(start, k), Chunk(buf, start, k), r)
    ensures Progress(s, buf, start, k + 1, r)
  {
    SpannedStep(s, start / BLOCK_SIZE, k, t, ChunkAt(start, k), Chunk(buf, start, k), r);
    forall off | 0 <= off < MAX_FILE_SIZE
      ensures ByteAt(r, off) == if start <= off < (k + 1) * BLOCK_SIZE then buf[off - start]
                                else if off / BLOCK_SIZE == start / BLOCK_SIZE < k + 1 then BufferAt(s, off)
                                else ByteAt(s, off)
    {
      WrittenByte(t, k, buf, start, r, off);
    }
  }

  /** A block that is mapped stays mapped. */
  lemma GainedPointer(t: State, r: State, m: nat)
    requires t.Sound() && Gained(t, r) && m < MAX_FILE_BLOCKS && PhysicalBlock(t.disk, t.din, m) != 0
    ensures PhysicalBlock(r.disk, r.din, m) == PhysicalBlock(t.disk, t.din, m)
  {
    var p := PhysicalBlock(t.disk, t.din, m);
    assert p in t.own && t.own[p] == SlotOf(m);
    assert p in r.own && r.own[p] == SlotOf(m);
  }

  /** The whole write is done; `tail` is how its last block read before. */
  ghost predicate Done(s: State, buf: seq<Byte>, start: nat, last: nat, tail: Block, t: State) {
    var first := start / BLOCK_SIZE;
    first <= last && Spanned(s, first, last + 1, t) &&
    forall off :: 0 <= off < MAX_FILE_SIZE ==>
      ByteAt(t, off) == if start <= off < start + |buf| then buf[off - start]
                        else if off / BLOCK_SIZE == first then BufferAt(s, off)
                        else if off / BLOCK_SIZE == last then tail[off % BLOCK_SIZE]
                        else ByteAt(s, off)
  }

  lemma LastStep(s: State, buf: seq<Byte>, start: nat, k: nat, t: State, r: State)
    requires s.Sound() && Progress(s, buf, start, k, t) && k < MAX_FILE_BLOCKS && (k == start / BLOCK_SIZE ==> t == s)
    requires start + |buf| <= (k + 1) * BLOCK_SIZE
    requires Written(t, k, ChunkAt(start, k), Chunk(buf, start, k), r)
    ensures Done(s, buf, start, k, ReadBuffer(t.disk, t.din, k), r)
  {
    SpannedStep(s, start / BLOCK_SIZE, k, t, ChunkAt(start, k), Chunk(buf, start, k), r);
    forall off | 0 <= off < MAX_FILE_SIZE
      ensures ByteAt(r, off) == if start <= off < start + |buf| then buf[off - start]
                                else if off / BLOCK_SIZE == start / BLOCK_SIZE then BufferAt(s, off)
                                else if off / BLOCK_SIZE == k then ReadBuffer(t.disk, t.din, k)[off % BLOCK_SIZE]
                                else ByteAt(s, off)
    {
      WrittenByte(t, k, buf, start, r, off);
    }
  }

  /** The write stopped at block k, the first that it could not get past: what was written stays, every counter
      agrees with the blocks the inode has, the other files are as they were, and the tree of this one is intact in
      exactly two cases: the file would be too big, or there was no room at all left for block k. */
  ghost predicate Partly(s: State, buf: seq<Byte>, start: nat, k: nat, t: State) {
    var first := start / BLOCK_SIZE;
    first <= k && k * BLOCK_SIZE <= start + |buf| && PointersIn(t.din) && t.din.iType == s.din.iType &&
    OthersKept(s, t) &&
    Blocked(s, first, k) && (k > first ==> k <= MAX_FILE_BLOCKS && !Blocked(s, first, k - 1)) &&
    (t.Sound() <==> k >= MAX_FILE_BLOCKS || Room(s.sb) <= NeedSpan(s, first, k)) &&
    Extended(s, first, k, t) &&
    forall off :: 0 <= off < MAX_FILE_SIZE ==>
      ByteAt(t, off) == if start <= off < k * BLOCK_SIZE then buf[off - start]
                        else if off / BLOCK_SIZE == first < k then BufferAt(s, off)
                        else ByteAt(s, off)
  }

  /** The inode has its blocks and new ones, which were free, on the paths to the logical blocks first..k-1, and the
      counters say so. */
  ghost predicate Extended(s: State, first: nat, k: nat, t: State) {
    t.own.Keys >= s.own.Keys && (forall b :: b in s.own ==> t.own[b] == s.own[b]) &&
    (forall b :: b in t.own && b !in s.own ==> b !in s.used && InSpan(t.own[b], first, k)) &&
    (forall b :: b in t.used <==> b in s.used || b in t.own) && t.din.blockCount == |t.own| &&
    t.sb == s.sb.(usedBlockCount := s.sb.usedBlockCount + |t.own| - |s.own|) &&
    (forall m :: first <= m < k && m < MAX_FILE_BLOCKS ==> PhysicalBlock(t.disk, t.din, m) != 0)
  }

  lemma FailedByte(t: State, k: nat, ret: int, r: State, off: nat)
    requires t.Sound() && off < MAX_FILE_SIZE && k < MAX_FILE_BLOCKS && ret < 0 && Allocated(t, k, ret, r)
    ensures ByteAt(r, off) == ByteAt(t, off)
  {
    var m := off / BLOCK_SIZE;
    var p := PhysicalBlock(t.disk, t.din, m);
    assert p == PhysicalBlock(r.disk, r.din, m);
    if p != 0 {
      assert p in t.own && t.own[p] == SlotOf(m);
      assert r.disk[p] == t.disk[p];
    }
  }

  /** After a failed allocation, the tree is intact if and only if there was no room at all. */
  lemma FailedTree(t: State, k: nat, ret: int, r: State)
    requires t.Sound() && k < MAX_FILE_BLOCKS && ret < 0 && Allocated(t, k, ret, r)
    ensures r.Sound() <==> Room(t.sb) <= 0
  {
    if Room(t.sb) > 0 {
      var x: Slot :| x.Valid() && Ptr(r.disk, r.din, x) > 0 && Ptr(r.disk, r.din, x) !in r.used;
      assert IsTree(r.disk, r.din, r.own) ==> Ptr(r.disk, r.din, x) in r.own.Keys;
    }
  }

  /** What a step that fails at block k leaves, be it that the file would be too big, or that there is no room */
  ghost predicate Refused(t: State, k: nat, ret: int, r: State) {
    if k < MAX_FILE_BLOCKS then ret < 0 && PhysicalBlock(t.disk, t.din, k) == 0 && Allocated(t, k, ret, r) else r == t
  }

  lemma RefusedBytes(t: State, k: nat, ret: int, r: State)
    requires t.Sound() && Refused(t, k, ret, r)
    ensures forall off :: 0 <= off < MAX_FILE_SIZE ==> ByteAt(r, off) == ByteAt(t, off)
  {
    hide Allocated;
    hide State.Sound;
    hide ByteAt;
    forall off | 0 <= off < MAX_FILE_SIZE ensures ByteAt(r, off) == ByteAt(t, off) {
      if k < MAX_FILE_BLOCKS {
        FailedByte(t, k, ret, r, off);
      }
    }
  }

  lemma RefusedRest(t: State, k: nat, ret: int, r: State)
    requires t.Sound() && Refused(t, k, ret, r)
    ensures r.own == t.own && r.used == t.used && r.sb == t.sb && r.din.blockCount == t.din.blockCount
    ensures r.din.iSize == t.din.iSize && r.din.iType == t.din.iType && PointersIn(r.din) &&
            |r.disk| == |t.disk| == DEVICE_BLOCKS
    ensures forall b :: INODE_BLOCKS_START <= b < DEVICE_BLOCKS && Holding(b, t.used, t.own) ==> r.disk[b] == t.disk[b]
    ensures forall m :: 0 <= m < MAX_FILE_BLOCKS ==> PhysicalBlock(r.disk, r.din, m) == PhysicalBlock(t.disk, t.din, m)
  {
    SoundPointersIn(t);
  }

  lemma RefusedTree(s: State, first: nat, k: nat, t: State, ret: int, r: State)
    requires s.Sound() && Spanned(s, first, k, t) && first <= k && Refused(t, k, ret, r) && Room(r.sb) >= 0
    ensures Blocked(s, first, k) && (r.Sound() <==> k >= MAX_FILE_BLOCKS || Room(s.sb) <= NeedSpan(s, first, k))
  {
    if k < MAX_FILE_BLOCKS {
      TakesNow(s, first, k, t);
      FailedTree(t, k, ret, r);
      hide State.Sound;
      hide Gained;
      hide Allocated;
      RefusedRoom(s, first, k, t, ret, r);
    }
  }

  lemma RefusedRoom(s: State, first: nat, k: nat, t: State, ret: int, r: State)
    requires Spanned(s, first, k, t) && first <= k < MAX_FILE_BLOCKS && Refused(t, k, ret, r) &&
             Takes(t, k) == NeedAt(s, first, k)
    ensures Room(t.sb) == Room(s.sb) - NeedSpan(s, first, k) < NeedAt(s, first, k)
    ensures NeedSpan(s, first, k + 1) == NeedSpan(s, first, k) + NeedAt(s, first, k)
  {
  }

  lemma RefusedExtends(s: State, first: nat, k: nat, t: State, ret: int, r: State)
    requires s.Sound() && Spanned(s, first, k, t) && first <= k && Refused(t, k, ret, r) && Room(r.sb) >= 0
    ensures Extended(s, first, k, r) && OthersKept(s, r) &&
            (k > first ==> k <= MAX_FILE_BLOCKS && !Blocked(s, first, k - 1))
  {
    hide Refused;
    hide InSpan;
    hide PhysicalBlock;
    hide NeedSpan;
    RefusedRest(t, k, ret, r);
    forall b | INODE_BLOCKS_START <= b < DEVICE_BLOCKS && (b < DATA_BLOCKS_START || (b in s.used && b !in s.own))
      ensures r.disk[b] == s.disk[b]
    {
      assert Holding(b, t.used, t.own);
    }
  }

  /** After the blocks before it, block k is refused: the write stops there. */
  lemma FailedStep(s: State, buf: seq<Byte>, start: nat, k: nat, t: State, ret: int, r: State)
    requires s.Sound() && Progress(s, buf, start, k, t) && Refused(t, k, ret, r) && Room(r.sb) >= 0
    ensures Partly(s, buf, start, k, r) && r.din.iSize == s.din.iSize
  {
    hide Refused;
    hide Blocked;
    hide Extended;
    hide OthersKept;
    hide ByteAt;
    hide BufferAt;
    hide NeedSpan;
    ProgressSound(s, buf, start, k, t);
    RefusedTree(s, start / BLOCK_SIZE, k, t, ret, r);
    RefusedExtends(s, start / BLOCK_SIZE, k, t, ret, r);
    RefusedRest(t, k, ret, r);
    RefusedBytes(t, k, ret, r);
  }

  /** A write whose first block lies beyond the maximum fails at once. */
  lemma BeyondMaximum(s: State, buf: seq<Byte>, start: nat)
    requires s.Sound() && start / BLOCK_SIZE >= MAX_FILE_BLOCKS
    ensures Partly(s, buf, start, start / BLOCK_SIZE, s)
  {
    SoundPointersIn(s);
  }

  /** The file size is no part of the tree or of the contents. */
  lemma SameButSize(t: State, r: State)
    requires r == t.(din := t.din.(iSize := r.din.iSize))
    ensures r.Sound() <==> t.Sound()
    ensures forall m :: 0 <= m < MAX_FILE_BLOCKS ==> PhysicalBlock(r.disk, r.din, m) == PhysicalBlock(t.disk, t.din, m)
    ensures forall off :: 0 <= off < MAX_FILE_SIZE ==> ByteAt(r, off) == ByteAt(t, off)
  {
    forall x: Slot ensures Ptr(r.disk, r.din, x) == Ptr(t.disk, t.din, x) {
    }
    forall off | 0 <= off < MAX_FILE_SIZE ensures ByteAt(r, off) == ByteAt(t, off) {
      assert PhysicalBlock(r.disk, r.din, off / BLOCK_SIZE) == PhysicalBlock(t.disk, t.din, off / BLOCK_SIZE);
    }
  }

  lemma Resized(s: State, buf: seq<Byte>, start: nat, last: nat, tail: Block, t: State, r: State)
    requires Done(s, buf, start, last, tail, t) && r == t.(din := t.din.(iSize := r.din.iSize))
    ensures Done(s, buf, start, last, tail, r)
  {
    hide ByteAt;
    hide PhysicalBlock;
    hide State.Sound;
    SameButSize(t, r);
  }

  lemma ResizedPartly(s: State, buf: seq<Byte>, start: nat, k: nat, t: State, r: State)
    requires Partly(s, buf, start, k, t) && r == t.(din := t.din.(iSize := r.din.iSize))
    ensures Partly(s, buf, start, k, r)
  {
    hide ByteAt;
    hide PhysicalBlock;
    hide State.Sound;
    SameButSize(t, r);
  }

  lemma ProgressSound(s: State, buf: seq<Byte>, start: nat, k: nat, t: State)
    requires Progress(s, buf, start, k, t)
    ensures t.Sound() && k <= MAX_FILE_BLOCKS && t.din.iSize == s.din.iSize
  {
  }

  /** One step of testfs_write_data: block k, after the blocks before it. */
  method WriteChunk(file: Inode, buf: seq<Byte>, start: nat, k: nat, src: seq<Byte>, ghost s: State,
                    ghost own: map<int, Slot>)
    returns (ret: int, ghost own': map<int, Slot>)
    requires file.Sound(own) && s.Sound() && start / BLOCK_SIZE <= k && k * BLOCK_SIZE <= start + |buf|
    requires k <= MAX_FILE_BLOCKS ==> Progress(s, buf, start, k, file.S(own))
    requires if k == start / BLOCK_SIZE then file.S(own) == s else k <= MAX_FILE_BLOCKS
    requires src == Chunk(buf, start, k)
    modifies file`din, file`dirty, file.sb, file.sb.blockFreemap, file.sb.blockFreemap.v
    ensures !file.dirty ==> !old(file.dirty) && file.din == old(file.din)
    ensures file.sb.Valid() && file.sb.inodeFreemap.bits == old(file.sb.inodeFreemap.bits)
    ensures file.din.iSize == old(file.din.iSize)
    ensures ret < 0 ==> ret == ErrorAt(k) && Partly(s, buf, start, k, file.S(own'))
    ensures ret >= 0 ==> k < MAX_FILE_BLOCKS
    ensures ret >= 0 && (k + 1) * BLOCK_SIZE <= start + |buf| ==> Progress(s, buf, start, k + 1, file.S(own'))
    ensures ret >= 0 && start + |buf| <= (k + 1) * BLOCK_SIZE ==>
              Done(s, buf, start, k, ReadBuffer(old(file.sb.data), old(file.din), k), file.S(own'))
  {
    hide Partly;
    hide Progress;
    hide Done;
    hide State.Sound;
    ghost var t := file.S(own);
    ret, own' := file.WriteInto(k, ChunkAt(start, k), src, own);
    if ret < 0 {
      Mounted(file.sb);
      if k <= MAX_FILE_BLOCKS {
        FailedStep(s, buf, start, k, t, ret, file.S(own'));
      } else {
        BeyondMaximum(s, buf, start);
      }
    } else {
      if (k + 1) * BLOCK_SIZE <= start + |buf| {
        ProgressStep(s, buf, start, k, t, file.S(own'));
      }
      if start + |buf| <= (k + 1) * BLOCK_SIZE {
        LastStep(s, buf, start, k, t, file.S(own'));
      }
    }
  }

  /** The full blocks of a write that spans several blocks, after its head and up to its last block. */
  method WriteMiddle(file: Inode, buf: seq<Byte>, start: nat, remaining: int, ghost s: State, ghost own: map<int, Slot>)
    returns (ret: int, ghost own': map<int, Slot>, i: nat, sizeRemaining: int)
    requires s.Sound() && file.sb.Valid() && remaining > 0 &&
             (start / BLOCK_SIZE + 1) * BLOCK_SIZE + remaining == start + |buf|
    requires Progress(s, buf, start, start / BLOCK_SIZE + 1, file.S(own))
    modifies file`din, file`dirty, file.sb, file.sb.blockFreemap, file.sb.blockFreemap.v
    ensures !file.dirty ==> !old(file.dirty) && file.din == old(file.din)
    ensures file.sb.Valid() && file.sb.inodeFreemap.bits == old(file.sb.inodeFreemap.bits)
    ensures file.din.iSize == s.din.iSize && i > 0
    ensures ret < 0 ==>
              ret == ErrorAt(start / BLOCK_SIZE + i) && Partly(s, buf, start, start / BLOCK_SIZE + i, file.S(own')) &&
              (start / BLOCK_SIZE + i + 1) * BLOCK_SIZE < start + |buf|
    ensures ret >= 0 ==>
              0 < sizeRemaining <= BLOCK_SIZE &&
              (start / BLOCK_SIZE + i) * BLOCK_SIZE + sizeRemaining == start + |buf| &&
              Progress(s, buf, start, start / BLOCK_SIZE + i, file.S(own'))
  {
    hide SuperBlock.Valid;
    hide Partly;
    hide Progress;
    hide State.Sound;
    var blockNr, blockIx := start / BLOCK_SIZE, start % BLOCK_SIZE;
    ret, own', i, sizeRemaining := 0, own, 1, remaining;
    var k := blockNr + 1;
    while sizeRemaining > BLOCK_SIZE
      invariant i >= 1 && k == blockNr + i && sizeRemaining > 0 && ret >= 0
      invariant k * BLOCK_SIZE + sizeRemaining == start + |buf|
      invariant file.sb.Valid() && file.sb.inodeFreemap.bits == old(file.sb.inodeFreemap.bits)
      invariant Progress(s, buf, start, k, file.S(own')) &&
                (!file.dirty ==> !old(file.dirty) && file.din == old(file.din))
    {
      ProgressSound(s, buf, start, k, file.S(own'));
      ret, own' := WriteChunk(file, buf, start, k,
                              buf[BLOCK_SIZE * i - blockIx..BLOCK_SIZE * i - blockIx + BLOCK_SIZE], s, own');
      if ret < 0 {
        return;
      }
      i, k := i + 1, k + 1;
      sizeRemaining := sizeRemaining - BLOCK_SIZE;
    }
    ProgressSound(s, buf, start, k, file.S(own'));
  }

  /** The head of a write that spans several blocks. */
  method WriteHead(file: Inode, buf: seq<Byte>, start: nat, ghost s: State, ghost own: map<int, Slot>)
    returns (ret: int, ghost own': map<int, Slot>)
    requires file.Sound(own) && file.S(own) == s && start % BLOCK_SIZE + |buf| > BLOCK_SIZE
    modifies file`din, file`dirty, file.sb, file.sb.blockFreemap, file.sb.blockFreemap.v
    ensures !file.dirty ==> !old(file.dirty) && file.din == old(file.din)
    ensures file.sb.Valid() && file.sb.inodeFreemap.bits == old(file.sb.inodeFreemap.bits)
    ensures file.din.iSize == s.din.iSize
    ensures ret < 0 ==> ret == ErrorAt(start / BLOCK_SIZE) && Partly(s, buf, start, start / BLOCK_SIZE, file.S(own'))
    ensures ret >= 0 ==> Progress(s, buf, start, start / BLOCK_SIZE + 1, file.S(own'))
  {
    hide SuperBlock.Valid;
    var blockNr, blockIx := start / BLOCK_SIZE, start % BLOCK_SIZE;
    if blockNr <= MAX_FILE_BLOCKS {
      ProgressStart(s, buf, start);
    }
    ret, own' := WriteChunk(file, buf, start, blockNr, buf[..BLOCK_SIZE - blockIx], s, own);
  }

  /** The last block of a write, and the new file size. */
  method WriteLast(file: Inode, buf: seq<Byte>, start: nat, k: nat, src: seq<Byte>, ghost s: State,
                   ghost own: map<int, Slot>)
    returns (ret: int, ghost own': map<int, Slot>, ghost tail: Block)
    requires file.Sound(own) && s.Sound() && start / BLOCK_SIZE <= k &&
             k * BLOCK_SIZE <= start + |buf| <= (k + 1) * BLOCK_SIZE
    requires k <= MAX_FILE_BLOCKS ==> Progress(s, buf, start, k, file.S(own))
    requires if k == start / BLOCK_SIZE then file.S(own) == s else k <= MAX_FILE_BLOCKS
    requires src == Chunk(buf, start, k)
    modifies file`din, file`dirty, file.sb, file.sb.blockFreemap, file.sb.blockFreemap.v
    ensures !file.dirty ==> !old(file.dirty) && file.din == old(file.din)
    ensures file.sb.Valid() && file.sb.inodeFreemap.bits == old(file.sb.inodeFreemap.bits)
    ensures ret < 0 ==>
              ret == ErrorAt(k) && Partly(s, buf, start, k, file.S(own')) && file.din.iSize == old(file.din.iSize)
    ensures ret >= 0 ==>
              k < MAX_FILE_BLOCKS && Done(s, buf, start, k, tail, file.S(own')) && file.dirty &&
              tail == ReadBuffer(old(file.sb.data), old(file.din), k) &&
              file.din.iSize == if |buf| > 0 && start + |buf| > old(file.din.iSize) then start + |buf|
              else old(file.din.iSize)
  {
    hide SuperBlock.Valid;
    tail := if k < MAX_FILE_BLOCKS then ReadBuffer(file.sb.data, file.din, k) else ZeroBlock();
    ret, own' := WriteChunk(file, buf, start, k, src, s, own);
    if ret < 0 {
      return;
    }
    ghost var t := file.S(own');
    if |buf| > 0 {
      file.din := file.din.(iSize := if file.din.iSize >= start + |buf| then file.din.iSize else start + |buf|);
    }
    file.dirty := true;
    Resized(s, buf, start, k, tail, t, file.S(own'));
  }

  lemma TailChunk(buf: seq<Byte>, start: nat, i: nat, sizeRemaining: int)
    requires i > 0 && 0 < sizeRemaining <= BLOCK_SIZE &&
             (start / BLOCK_SIZE + i) * BLOCK_SIZE + sizeRemaining == start + |buf|
    ensures var at := BLOCK_SIZE * i - start % BLOCK_SIZE;
            at >= 0 && at + sizeRemaining == |buf| &&
            buf[at..at + sizeRemaining] == Chunk(buf, start, start / BLOCK_SIZE + i)
  {
  }

  /** The tail of a write that spans several blocks; any failure here sets the file size to the maximum. */
  method WriteTail(file: Inode, buf: seq<Byte>, start: nat, i: nat, sizeRemaining: int, ghost s: State,
                   ghost own: map<int, Slot>)
    returns (ret: int, ghost own': map<int, Slot>, ghost k: nat, ghost tail: Block)
    requires s.Sound() && file.sb.Valid() && i > 0 && Progress(s, buf, start, start / BLOCK_SIZE + i, file.S(own))
    requires 0 < sizeRemaining <= BLOCK_SIZE && (start / BLOCK_SIZE + i) * BLOCK_SIZE + sizeRemaining == start + |buf|
    modifies file`din, file`dirty, file.sb, file.sb.blockFreemap, file.sb.blockFreemap.v
    ensures !file.dirty ==> !old(file.dirty) && file.din == old(file.din)
    ensures file.sb.Valid() && file.sb.inodeFreemap.bits == old(file.sb.inodeFreemap.bits)
    ensures start / BLOCK_SIZE < k && k * BLOCK_SIZE < start + |buf| <= (k + 1) * BLOCK_SIZE
    ensures ret >= 0 ==>
              Done(s, buf, start, k, tail, file.S(own')) && file.dirty &&
              file.din.iSize == if start + |buf| > s.din.iSize then start + |buf| else s.din.iSize
    ensures ret >= 0 ==> TailKept(s, start / BLOCK_SIZE, k, tail)
    ensures ret < 0 ==> ret == ErrorAt(k) && Partly(s, buf, start, k, file.S(own')) && file.din.iSize == MAX_FILE_SIZE
  {
    hide SuperBlock.Valid;
    hide Partly;
    hide Done;
    hide State.Sound;
    hide TailKept;
    ghost var t := file.S(own);
    var last := start / BLOCK_SIZE + i;
    ProgressSound(s, buf, start, last, t);
    k := last;
    var at := BLOCK_SIZE * i - start % BLOCK_SIZE;
    TailChunk(buf, start, i, sizeRemaining);
    hide Chunk;
    ret, own', tail := WriteLast(file, buf, start, last, buf[at..at + sizeRemaining], s, own);
    if ret < 0 {
      ghost var r := file.S(own');
      file.din := file.din.(iSize := MAX_FILE_SIZE);
      file.dirty := true;
      ResizedPartly(s, buf, start, last, r, file.S(own'));
    } else {
      TailBuffer(s, buf, start, last, t, tail);
    }
  }

  /** testfs_write_data, when the bytes span several blocks */
  method WriteLong(file: Inode, buf: seq<Byte>, start: nat, ghost s: State, ghost own: map<int, Slot>)
    returns (ret: int, ghost own': map<int, Slot>, ghost k: nat, ghost tail: Block)
    requires file.Sound(own) && file.S(own) == s && start % BLOCK_SIZE + |buf| > BLOCK_SIZE
    modifies file`din, file`dirty, file.sb, file.sb.blockFreemap, file.sb.blockFreemap.v
    ensures !file.dirty ==> !old(file.dirty) && file.din == old(file.din)
    ensures file.sb.Valid() && file.sb.inodeFreemap.bits == old(file.sb.inodeFreemap.bits)
    ensures ret >= 0 ==>
              file.dirty && Done(s, buf, start, k, tail, file.S(own')) &&
              start / BLOCK_SIZE < k && k * BLOCK_SIZE < start + |buf| <= (k + 1) * BLOCK_SIZE &&
              file.din.iSize == if start + |buf| > s.din.iSize then start + |buf| else s.din.iSize
    ensures ret >= 0 ==> TailKept(s, start / BLOCK_SIZE, k, tail)
    ensures ret < 0 ==>
              ret == ErrorAt(k) && Partly(s, buf, start, k, file.S(own')) &&
              (k == start / BLOCK_SIZE || k * BLOCK_SIZE < start + |buf|) &&
              file.din.iSize == if k > start / BLOCK_SIZE && start + |buf| <= (k + 1) * BLOCK_SIZE then MAX_FILE_SIZE
              else s.din.iSize
  {
    hide SuperBlock.Valid;
    hide Partly;
    hide Progress;
    hide Done;
    hide State.Sound;
    hide TailKept;
    var blockNr, blockIx := start / BLOCK_SIZE, start % BLOCK_SIZE;
    k := blockNr;
    tail := ZeroBlock();
    ret, own' := WriteHead(file, buf, start, s, own);
    if ret < 0 {
      return;
    }
    var i, sizeRemaining;
    ret, own', i, sizeRemaining := WriteMiddle(file, buf, start, |buf| - (BLOCK_SIZE - blockIx), s, own');
    k := blockNr + i;
    if ret < 0 {
      return;
    }
    ret, own', k, tail := WriteTail(file, buf, start, i, sizeRemaining, s, own');
  }

  /** A write that is done was not blocked. */
  lemma DoneNotBlocked(s: State, buf: seq<Byte>, start: nat, k: nat, tail: Block, t: State)
    requires Done(s, buf, start, k, tail, t) && Room(t.sb) >= 0
    ensures !Blocked(s, start / BLOCK_SIZE, k)
  {
  }

  lemma PartlyBlocked(s: State, buf: seq<Byte>, start: nat, k: nat, t: State)
    requires Partly(s, buf, start, k, t) && (k == start / BLOCK_SIZE || k * BLOCK_SIZE < start + |buf|)
    ensures start / BLOCK_SIZE <= k <= LastBlock(start, |buf|) &&
            Blocked(s, start / BLOCK_SIZE, LastBlock(start, |buf|))
  {
    NotPastLast(start, |buf|, k);
    BlockedLater(s, start / BLOCK_SIZE, k, LastBlock(start, |buf|));
  }

  /** testfs_write_data. It succeeds if and only if the last block is within the maximum and there is room for all
      the blocks that the range needs, tables included; it reports the bytes written, or the error of the first block
      k that it could not get past. */
  method WriteData(file: Inode, buf: seq<Byte>, start: nat, ghost own: map<int, Slot>)
    returns (ret: int, ghost own': map<int, Slot>, ghost k: nat, ghost tail: Block)
    requires file.Sound(own) && |buf| < MAX_TRANSFER && start + |buf| < MAX_OFFSET
    modifies file`din, file`dirty, file.sb, file.sb.blockFreemap, file.sb.blockFreemap.v
    ensures !file.dirty ==> !old(file.dirty) && file.din == old(file.din)
    ensures file.sb.Valid() && file.sb.inodeFreemap.bits == old(file.sb.inodeFreemap.bits)
    ensures ret >= 0 <==> !Blocked(old(file.S(own)), start / BLOCK_SIZE, LastBlock(start, |buf|))
    ensures ret >= 0 ==>
              ret == |buf| && file.dirty && k == LastBlock(start, |buf|) &&
              Done(old(file.S(own)), buf, start, k, tail, file.S(own')) &&
              file.din.iSize == if |buf| > 0 && start + |buf| > old(file.din.iSize) then start + |buf|
              else old(file.din.iSize)
    ensures ret >= 0 && k > start / BLOCK_SIZE ==> TailKept(old(file.S(own)), start / BLOCK_SIZE, k, tail)
    ensures ret < 0 ==>
              ret == ErrorAt(k) && k <= LastBlock(start, |buf|) &&
              Partly(old(file.S(own)), buf, start, k, file.S(own')) &&
              file.din.iSize == if start / BLOCK_SIZE < k == LastBlock(start, |buf|) then MAX_FILE_SIZE
              else old(file.din.iSize)
  {
    hide Partly;
    hide Progress;
    hide Done;
    hide State.Sound;
    hide TailKept;
    hide Blocked;
    ghost var s := file.S(own);
    var blockNr, blockIx, size := start / BLOCK_SIZE, start % BLOCK_SIZE, |buf|;
    if blockIx + size > BLOCK_SIZE {
      ret, own', k, tail := WriteLong(file, buf, start, s, own);
    } else {
      k := blockNr;
      if blockNr <= MAX_FILE_BLOCKS {
        ProgressStart(s, buf, start);
      }
      ret, own', tail := WriteLast(file, buf, start, blockNr, buf, s, own);
    }
    if ret >= 0 {
      Mounted(file.sb);
      DoneNotBlocked(s, buf, start, k, tail, file.S(own'));
      LastBlockIs(start, size, k);
      ret := size;
    } else {
      PartlyBlocked(s, buf, start, k, file.S(own'));
      if start / BLOCK_SIZE < k && start + size <= (k + 1) * BLOCK_SIZE {
        LastBlockIs(start, size, k);
      }
    }
  }

  /** When a write that spans several blocks comes to its last block, k, the second-level table of k is missing
      although the double indirect block is there. */
  predicate LateTable(s: State, k: nat) {
    DOUBLE_START <= k < MAX_FILE_BLOCKS && (k - DOUBLE_START) % NR_INDIRECT_BLOCKS == 0 &&
    Ptr(s.disk, s.din, SlotOf(k).Parent()) == 0 && (s.din.iDindirect > 0 || k > DOUBLE_START)
  }

  /** Read as a table, the block is nonzero at p if and only if the file had a second-level table p before the write,
      or got one for the logical blocks first..k-1. */
  ghost predicate TopEntries(s: State, first: nat, k: nat, tail: Block) {
    forall p: nat :: p < NR_INDIRECT_BLOCKS ==>
      (Word(tail, p) != 0 <==> Ptr(s.disk, s.din, Table(p)) != 0 || InSpan(Table(p), first, k))
  }

  /** The last block read as the file had it, unless its table was missing: then it read as the double indirect
      block. */
  ghost predicate TailKept(s: State, first: nat, k: nat, tail: Block) {
    k < MAX_FILE_BLOCKS &&
    if LateTable(s, k) then TopEntries(s, first, k, tail) else tail == BlockBytes(s.disk, s.din, k)
  }

  lemma SlotOfPrevious(k: nat, p: nat, q: nat)
    requires k == DOUBLE_START + p * NR_INDIRECT_BLOCKS + q && q < NR_INDIRECT_BLOCKS && p < NR_INDIRECT_BLOCKS
    ensures (k - DOUBLE_START) / NR_INDIRECT_BLOCKS == p && (k - DOUBLE_START) % NR_INDIRECT_BLOCKS == q
    ensures SlotOf(k) == TableEntry(p, q)
    ensures q > 0 ==> SlotOf(k - 1) == TableEntry(p, q - 1)
    ensures q == 0 && p > 0 ==> SlotOf(k - 1) == TableEntry(p - 1, NR_INDIRECT_BLOCKS - 1)
  {
  }

  lemma TailTable(s: State, buf: seq<Byte>, start: nat, k: nat, t: State)
    requires s.Sound() && Progress(s, buf, start, k, t) && start / BLOCK_SIZE < k < MAX_FILE_BLOCKS
    ensures MissingTable(t.disk, t.din, k) <==> LateTable(s, k)
  {
    if k >= DOUBLE_START {
      var p, q := (k - DOUBLE_START) / NR_INDIRECT_BLOCKS, (k - DOUBLE_START) % NR_INDIRECT_BLOCKS;
      SlotOfPrevious(k, p, q);
      KeptPointer(s, start / BLOCK_SIZE, k, t, Table(p));
      KeptPointer(s, start / BLOCK_SIZE, k, t, Double);
      assert PhysicalBlock(t.disk, t.din, k - 1) != 0;
    }
  }

  lemma TailBuffer(s: State, buf: seq<Byte>, start: nat, k: nat, t: State, tail: Block)
    requires s.Sound() && Progress(s, buf, start, k, t) && start / BLOCK_SIZE < k < MAX_FILE_BLOCKS
    requires tail == ReadBuffer(t.disk, t.din, k)
    ensures TailKept(s, start / BLOCK_SIZE, k, tail)
  {
    TailTable(s, buf, start, k, t);
    if LateTable(s, k) {
      LateTail(s, start / BLOCK_SIZE, k, t, tail);
    } else {
      hide Progress;
      hide LateTable;
      hide State.Sound;
      TailUntouched(s, buf, start, k, t);
    }
  }

  lemma TailUntouched(s: State, buf: seq<Byte>, start: nat, k: nat, t: State)
    requires Progress(s, buf, start, k, t) && start / BLOCK_SIZE < k < MAX_FILE_BLOCKS
    ensures BlockBytes(t.disk, t.din, k) == BlockBytes(s.disk, s.din, k)
  {
    hide Spanned;
    hide BlockBytes;
    forall j | 0 <= j < BLOCK_SIZE ensures BlockBytes(t.disk, t.din, k)[j] == BlockBytes(s.disk, s.din, k)[j] {
      InBlock(k * BLOCK_SIZE + j, k, j);
      assert ByteAt(t, k * BLOCK_SIZE + j) == ByteAt(s, k * BLOCK_SIZE + j);
    }
  }

  lemma LateTail(s: State, first: nat, k: nat, t: State, tail: Block)
    requires s.Sound() && Spanned(s, first, k, t) && MissingTable(t.disk, t.din, k) &&
             tail == ReadBuffer(t.disk, t.din, k)
    ensures TopEntries(s, first, k, tail)
  {
    PointerRange(t.disk, t.din, t.own, k);
    forall p: nat | p < NR_INDIRECT_BLOCKS
      ensures Word(tail, p) != 0 <==> Ptr(s.disk, s.din, Table(p)) != 0 || InSpan(Table(p), first, k)
    {
      assert Word(tail, p) == Ptr(t.disk, t.din, Table(p));
      KeptPointer(s, first, k, t, Table(p));
      if InSpan(Table(p), first, k) {
        TableThere(s, first, k, t, Table(p));
      }
    }
  }

  // ---- Reading ----

  /** `now` holds the first n bytes from `start` on, as they are read, and is otherwise as `was`. */
  ghost predicate Copied(s: State, was: seq<Byte>, now: seq<Byte>, start: nat, n: nat)
    requires start + n <= MAX_FILE_SIZE
  {
    |now| == |was| && n <= |was| && forall j :: 0 <= j < |now| ==>
      now[j] == if j < n then BufferAt(s, start + j) else was[j]
  }

  /** memcpy(buf + at, src, |src|) */
  method CopyTo(buf: array<Byte>, at: nat, src: seq<Byte>)
    requires at + |src| <= buf.Length
    modifies buf
    ensures forall j :: 0 <= j < buf.Length ==> buf[j] == if at <= j < at + |src| then src[j - at] else old(buf[j])
  {
    forall j | 0 <= j < |src| {
      buf[at + j] := src[j];
    }
  }

  /** testfs_read_block, then memcpy of n bytes of the block from lo on to the place they have in buf: one step of
      testfs_read_data. */
  method ReadChunk(file: Inode, buf: array<Byte>, start: nat, k: nat, at: nat, lo: nat, n: nat,
                   ghost was: seq<Byte>, ghost own: map<int, Slot>) returns (ret: int)
    requires file.Sound(own) && lo + n <= BLOCK_SIZE && start + at == k * BLOCK_SIZE + lo && at + n <= buf.Length
    requires start + at + n <= MAX_FILE_SIZE && Copied(file.S(own), was, buf[..], start, at)
    requires buf != file.sb.inodeFreemap.v && buf != file.sb.blockFreemap.v
    modifies buf
    ensures file.sb.Valid()
    ensures k < MAX_FILE_BLOCKS ==> ret >= 0 && Copied(file.S(own), was, buf[..], start, at + n)
    ensures k >= MAX_FILE_BLOCKS ==> ret == -EFBIG && buf[..] == old(buf[..])
  {
    hide State.Sound;
    hide ReadBuffer;
    var block;
    ret, block := file.ReadBlock(k, own);
    if ret < 0 {
      return;
    }
    CopyTo(buf, at, block[lo..lo + n]);
    ghost var now := buf[..];
    forall j | 0 <= j < |now| ensures now[j] == if j < at + n then BufferAt(file.S(own), start + j) else was[j] {
      if at <= j < at + n {
        InBlock(start + j, k, lo + j - at);
      }
    }
  }

  lemma InBlock(off: nat, k: nat, j: nat)
    requires off == k * BLOCK_SIZE + j && j < BLOCK_SIZE
    ensures off / BLOCK_SIZE == k && off % BLOCK_SIZE == j
  {
  }

  /** testfs_read_data */
  method ReadData(file: Inode, buf: array<Byte>, start: nat, size: nat, ghost own: map<int, Slot>) returns (ret: int)
    requires file.Sound(own) && start <= file.din.iSize <= MAX_FILE_SIZE
    requires size <= buf.Length < MAX_TRANSFER && buf != file.sb.inodeFreemap.v && buf != file.sb.blockFreemap.v
    modifies buf
    ensures file.sb.Valid()
    ensures start < MAX_FILE_SIZE ==>
              ret == (if start + size <= file.din.iSize then size else file.din.iSize - start) &&
              0 <= ret && start + ret <= MAX_FILE_SIZE && Copied(file.S(own), old(buf[..]), buf[..], start, ret)
    ensures start == MAX_FILE_SIZE ==> ret == -EFBIG && buf[..] == old(buf[..])
  {
    ghost var was := buf[..];
    var blockNr, blockIx := start / BLOCK_SIZE, start % BLOCK_SIZE;
    var size := size;
    if start + size > file.din.iSize {
      size := file.din.iSize - start;
    }
    if blockIx + size > BLOCK_SIZE {
      if size > MAX_FILE_SIZE {
        return -EFBIG;
      }
      ret := ReadChunk(file, buf, start, blockNr, 0, blockIx, BLOCK_SIZE - blockIx, was, own);
      if ret < 0 {
        return ret;
      }
      var sizeRemaining := size - (BLOCK_SIZE - blockIx);
      var i := 1;
      while sizeRemaining > BLOCK_SIZE
        invariant i >= 1 && sizeRemaining > 0
        invariant (blockNr + i) * BLOCK_SIZE + sizeRemaining == start + size && file.sb.Valid()
        invariant Copied(file.S(own), was, buf[..], start, BLOCK_SIZE * i - blockIx)
      {
        ret := ReadChunk(file, buf, start, blockNr + i, BLOCK_SIZE * i - blockIx, 0, BLOCK_SIZE, was, own);
        if ret < 0 {
          return ret;
        }
        i := i + 1;
        sizeRemaining := sizeRemaining - BLOCK_SIZE;
      }
      ret := ReadChunk(file, buf, start, blockNr + i, BLOCK_SIZE * i - blockIx, 0, sizeRemaining, was, own);
      if ret < 0 {
        return ret;
      }
      return size;
    }
    ret := ReadChunk(file, buf, start, blockNr, 0, blockIx, size, was, own);
    if ret < 0 {
      return ret;
    }
    return size;
  }
}
