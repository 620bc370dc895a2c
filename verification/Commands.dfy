/** Files without holes, as directories are: what they read as, and what writing to them does. */
module DenseFiles {
  import opened Bytes
  import opened Super
  import opened BlockMap
  import opened ReadWrite
  import opened FileData
  import opened FreeBlocks
  import opened FileTheorems
  import opened DiskInodes
  import opened FileSystem
  import Dirents

  /** Logical block n has a block. */
  ghost predicate Mapped(own: map<int, Slot>, n: nat) {
    n < MAX_FILE_BLOCKS && exists b :: b in own && own[b] == SlotOf(n)
  }

  /** The file consists of the bytes `data`, and has no hole. */
  ghost predicate Holds(s: State, data: seq<Byte>) {
    s.din.iSize == |data| <= MAX_FILE_SIZE && (forall j :: 0 <= j < |data| ==> ByteAt(s, j) == data[j]) &&
    forall n: nat :: n * BLOCK_SIZE < |data| ==> Mapped(s.own, n)
  }

  lemma MappedPointer(s: State, n: nat)
    requires s.Sound() && n < MAX_FILE_BLOCKS
    ensures Mapped(s.own, n) <==> PhysicalBlock(s.disk, s.din, n) != 0
    ensures Mapped(s.own, n) ==>
              ReadBuffer(s.disk, s.din, n) == BlockBytes(s.disk, s.din, n) && !MissingTable(s.disk, s.din, n) &&
              !LateTable(s, n)
  {
    OwnedPointer(s, SlotOf(n));
    if Mapped(s.own, n) && n >= DOUBLE_START {
      var p := (n - DOUBLE_START) / NR_INDIRECT_BLOCKS;
      OwnedPointer(s, SlotOf(n).Parent());
    }
  }

  /** What testfs_read_data copies out of such a file are its bytes. */
  lemma HeldReads(s: State, data: seq<Byte>, was: seq<Byte>, now: seq<Byte>, start: nat, n: nat)
    requires s.Sound() && Holds(s, data) && start + n <= |data| && Copied(s, was, now, start, n)
    ensures now[..n] == data[start..start + n]
  {
    forall k: nat | start / BLOCK_SIZE <= k && k * BLOCK_SIZE < start + n ensures !MissingTable(s.disk, s.din, k) {
      assert Mapped(s.own, k);
      MappedPointer(s, k);
    }
    ReadsAsArray(s, was, now, start, n);
  }

  lemma HeldByte(s: State, data: seq<Byte>, off: nat)
    requires s.Sound() && Holds(s, data) && off < |data|
    ensures off / BLOCK_SIZE < MAX_FILE_BLOCKS && BufferAt(s, off) == ByteAt(s, off) == data[off]
  {
    assert off / BLOCK_SIZE * BLOCK_SIZE < |data|;
    assert Mapped(s.own, off / BLOCK_SIZE);
    MappedPointer(s, off / BLOCK_SIZE);
  }

  /** A successful write into such a file, or at its end, makes of its bytes what a write into the array does, and
      leaves no hole. */
  lemma HeldWrite(s: State, data: seq<Byte>, buf: seq<Byte>, start: nat, k: nat, tail: Block, t: State)
    requires s.Sound() && Holds(s, data) && start <= |data| && |buf| > 0 && WriteDone(s, buf, start, k, tail, t)
    ensures t.Sound() && Holds(t, Dirents.WriteBytes(data, start, buf))
  {
    var data' := Dirents.WriteBytes(data, start, buf);
    WrittenSize(s, buf, start, k, tail, t);
    assert |data'| == t.din.iSize;
    forall j | 0 <= j < |data'| ensures ByteAt(t, j) == data'[j] {
      HeldBytes(s, data, buf, start, k, tail, t, j);
    }
    hide WriteDone;
    hide ByteAt;
    hide Mapped;
    forall n: nat | n * BLOCK_SIZE < |data'| ensures Mapped(t.own, n) {
      HeldMapped(s, data, buf, start, k, tail, t, n);
    }
  }

  lemma WrittenSize(s: State, buf: seq<Byte>, start: nat, k: nat, tail: Block, t: State)
    requires WriteDone(s, buf, start, k, tail, t) && |buf| > 0
    ensures t.Sound() && t.din.iSize == Larger(start + |buf|, s.din.iSize) && start + |buf| <= MAX_FILE_SIZE
  {
  }

  lemma HeldBytes(s: State, data: seq<Byte>, buf: seq<Byte>, start: nat, k: nat, tail: Block, t: State, j: nat)
    requires s.Sound() && Holds(s, data) && start <= |data| && |buf| > 0 && WriteDone(s, buf, start, k, tail, t)
    requires j < |Dirents.WriteBytes(data, start, buf)| && j < MAX_FILE_SIZE
    ensures ByteAt(t, j) == Dirents.WriteBytes(data, start, buf)[j]
  {
    hide Spanned;
    hide TailKept;
    hide State.Sound;
    hide Holds;
    hide ByteAt;
    hide BufferAt;
    if !(start <= j < start + |buf|) && j < |data| {
      HeldByte(s, data, j);
      HeldTail(s, data, buf, start, k, tail, j);
    }
  }

  lemma HeldMapped(s: State, data: seq<Byte>, buf: seq<Byte>, start: nat, k: nat, tail: Block, t: State, n: nat)
    requires s.Sound() && Holds(s, data) && start <= |data| && |buf| > 0 && WriteDone(s, buf, start, k, tail, t)
    requires n * BLOCK_SIZE < |data| || n * BLOCK_SIZE < start + |buf|
    ensures Mapped(t.own, n)
  {
    if n * BLOCK_SIZE < |data| {
      assert Mapped(s.own, n);
      var b :| b in s.own && s.own[b] == SlotOf(n);
      assert b in t.own && t.own[b] == SlotOf(n);
    } else {
      assert start / BLOCK_SIZE <= n <= k;
      assert PhysicalBlock(t.disk, t.din, n) != 0;
      MappedPointer(t, n);
    }
  }

  lemma HeldTail(s: State, data: seq<Byte>, buf: seq<Byte>, start: nat, k: nat, tail: Block, j: nat)
    requires s.Sound() && Holds(s, data) && k == LastBlock(start, |buf|) && |buf| > 0 && j < |data|
    requires k > start / BLOCK_SIZE ==> TailKept(s, start / BLOCK_SIZE, k, tail)
    ensures j / BLOCK_SIZE == k > start / BLOCK_SIZE ==> tail[j % BLOCK_SIZE] == ByteAt(s, j)
  {
    if j / BLOCK_SIZE == k > start / BLOCK_SIZE {
      assert Mapped(s.own, k);
      MappedPointer(s, k);
    }
  }

  lemma {:induction false} MappedNeedsNothing(s: State, first: nat, k: nat)
    requires s.Sound() && forall n: nat :: first <= n < k ==> Mapped(s.own, n)
    ensures NeedSpan(s, first, k) == 0
    decreases k
  {
    if k > first {
      MappedNeedsNothing(s, first, k - 1);
      assert Mapped(s.own, k - 1);
      MappedPointer(s, k - 1);
    }
  }

  /** A write within such a file always succeeds, for it takes no block. */
  lemma InPlaceFits(s: State, data: seq<Byte>, start: nat, n: nat)
    requires s.Sound() && Holds(s, data) && n > 0 && start + n <= |data| && Room(s.sb) >= 0
    ensures !Blocked(s, start / BLOCK_SIZE, LastBlock(start, n))
  {
    var k := LastBlock(start, n);
    forall m: nat | m < k + 1 ensures Mapped(s.own, m) {
      assert m * BLOCK_SIZE < |data|;
    }
    MappedNeedsNothing(s, start / BLOCK_SIZE, k + 1);
    assert Mapped(s.own, k);
  }

  /** So does a write into its first block, once that is mapped. */
  lemma FirstBlockFits(s: State, data: seq<Byte>, start: nat, n: nat)
    requires s.Sound() && Holds(s, data) && data != [] && n > 0 && start + n <= BLOCK_SIZE && Room(s.sb) >= 0
    ensures !Blocked(s, start / BLOCK_SIZE, LastBlock(start, n))
  {
    assert 0 * BLOCK_SIZE < |data|;
    assert Mapped(s.own, 0);
    MappedNeedsNothing(s, 0, 1);
  }

  /** A failed write at the end of such a file leaves it as it was if and only if it did not fail at the last of
      several blocks. */
  lemma FailedAppend(s: State, data: seq<Byte>, buf: seq<Byte>, k: nat, t: State)
    requires s.Sound() && Holds(s, data) && |buf| > 0 && Stopped(s, buf, |data|, k, t)
    ensures Holds(t, data) <==> !(|data| / BLOCK_SIZE < k == LastBlock(|data|, |buf|))
  {
    if !(|data| / BLOCK_SIZE < k == LastBlock(|data|, |buf|)) {
      forall j | 0 <= j < |data| ensures ByteAt(t, j) == data[j] {
        HeldByte(s, data, j);
      }
      forall n: nat | n * BLOCK_SIZE < |data| ensures Mapped(t.own, n) {
        assert Mapped(s.own, n);
        var b :| b in s.own && s.own[b] == SlotOf(n);
        assert b in s.own.Keys;
        assert b in t.own && t.own[b] == SlotOf(n);
      }
    }
  }
}

/** The commands on directories, as runs of operations of the file system. */
module Commands {
  import opened Bytes
  import opened Super
  import opened BlockMap
  import opened ReadWrite
  import opened FileData
  import opened FreeBlocks
  import opened FileTheorems
  import opened DiskInodes
  import opened FileSystem
  import opened DenseFiles
  import opened Trees
  import opened Directories
  import Dirents

  const I_FILE: int := 1
  const I_DIR: int := 2

  /** Inode nr of the file system is the file or directory nodes[nr]; the bytes of a directory are those of its file. */
  ghost predicate NodeOk(fs: Fs, nodes: map<int, Node>, nr: int)
    requires nr in nodes
  {
    0 <= nr < NR_INODES == |fs.inodes| == |fs.owns| &&
    match nodes[nr]
    case File => fs.inodes[nr].iType == I_FILE
    case Dir(data) => fs.inodes[nr].iType == I_DIR && Holds(fs.Of(nr), data)
  }

  /** The file system is in order, and its allocated inodes are the files and directories. */
  ghost predicate Agrees(fs: Fs, nodes: map<int, Node>) {
    fs.Ok() && (forall nr :: nr in fs.bits <==> nr in nodes) && forall nr :: nr in nodes ==> NodeOk(fs, nodes, nr)
  }

  lemma OthersAfterWrite(fs: Fs, op: Op, fs': Fs, m: nat)
    requires fs.Ok() && (op.Write? || op.FailWrite?) && Step(fs, op, fs') && m < NR_INODES && m != op.nr
    ensures |fs'.inodes| == |fs'.owns| == NR_INODES && fs'.inodes[m] == fs.inodes[m] && fs'.owns[m] == fs.owns[m]
    ensures forall off :: 0 <= off < MAX_FILE_SIZE ==> ByteAt(fs'.Of(m), off) == ByteAt(fs.Of(m), off)
  {
    hide Step;
    hide Fs.Ok;
    OkBits(fs);
    var t := WroteState(fs, op, fs');
    WroteInodes(fs, op, fs', t);
    WroteOwns(fs, op, fs', t);
  }

  lemma WroteOwns(fs: Fs, op: Op, fs': Fs, t: State)
    requires Wrote(fs, op, fs', t)
    ensures op.nr < |fs.owns| && fs'.owns == fs.owns[op.nr := t.own]
  {
  }

  /** An operation on one inode leaves the bytes and the blocks of all others alone. */
  lemma Others(fs: Fs, op: Op, fs': Fs, m: nat)
    requires fs.Ok() && Step(fs, op, fs') && m < NR_INODES && m != op.nr
    ensures |fs'.inodes| == |fs'.owns| == NR_INODES && fs'.inodes[m] == fs.inodes[m] && fs'.owns[m] == fs.owns[m]
    ensures forall off :: 0 <= off < MAX_FILE_SIZE ==> ByteAt(fs'.Of(m), off) == ByteAt(fs.Of(m), off)
  {
    match op
    case Create(nr, iType) =>
      CreateOk(fs, nr, iType, fs');
    case Remove(nr) =>
      var gone, t :| Released(fs.Of(nr), gone, t) && Becomes(fs, nr, Cleared(t), fs');
      RemoveOk(fs, nr, gone, t, fs');
    case _ =>
      OthersAfterWrite(fs, op, fs', m);
  }

  lemma OtherNode(fs: Fs, op: Op, fs': Fs, nodes: map<int, Node>, nodes': map<int, Node>, m: int)
    requires fs.Ok() && Step(fs, op, fs') && m != op.nr && m in nodes && m in nodes' && nodes[m] == nodes'[m] &&
             NodeOk(fs, nodes, m)
    ensures NodeOk(fs', nodes', m)
  {
    hide Step;
    hide Fs.Ok;
    Others(fs, op, fs', m);
  }

  /** An operation that does the right thing to its own inode keeps the agreement. */
  lemma StepAgrees(fs: Fs, op: Op, fs': Fs, nodes: map<int, Node>, nodes': map<int, Node>)
    requires Agrees(fs, nodes) && Step(fs, op, fs')
    requires forall m :: m != op.nr ==> (m in nodes' <==> m in nodes) && (m in nodes ==> nodes'[m] == nodes[m])
    requires op.nr in nodes' ==> NodeOk(fs', nodes', op.nr)
    requires op.nr in nodes' <==> op.nr in fs'.bits
    requires forall m :: m != op.nr ==> (m in fs'.bits <==> m in fs.bits)
    ensures Agrees(fs', nodes')
  {
    hide Step;
    hide Fs.Ok;
    hide NodeOk;
    StepKeepsOk(fs, op, fs');
    forall m | m in nodes' ensures NodeOk(fs', nodes', m) {
      if m != op.nr {
        OtherNode(fs, op, fs', nodes, nodes', m);
      }
    }
  }

  /** testfs_create_inode makes an empty file or directory. */
  lemma CreateAgrees(fs: Fs, nodes: map<int, Node>, nr: nat, isDir: bool, fs': Fs)
    requires Agrees(fs, nodes) && Step(fs, Create(nr, if isDir then I_DIR else I_FILE), fs')
    ensures nr !in nodes && Agrees(fs', nodes[nr := if isDir then Dir([]) else File])
  {
    var op := Create(nr, if isDir then I_DIR else I_FILE);
    assert fs.Good(nr);
    hide Fs.Ok;
    hide Step;
    CreatedInode(fs, nr, op.iType, fs');
    StepAgrees(fs, op, fs', nodes, nodes[nr := if isDir then Dir([]) else File]);
  }

  lemma CreatedInode(fs: Fs, nr: nat, iType: int, fs': Fs)
    requires fs.Ok() && Step(fs, Create(nr, iType), fs')
    ensures nr < NR_INODES == |fs'.inodes| == |fs'.owns| && nr !in fs.bits && fs'.bits == fs.bits + {nr}
    ensures fs'.inodes[nr] == NoInode().(iType := iType)
  {
    assert fs.Good(nr);
  }

  lemma WrittenInode(fs: Fs, op: Op, fs': Fs)
    requires fs.Ok() && (op.Write? || op.FailWrite?) && Step(fs, op, fs')
    ensures op.nr < NR_INODES == |fs.inodes| == |fs.owns| && op.nr in fs.bits && fs'.bits == fs.bits
  {
    OkBits(fs);
  }

  lemma WrittenType(fs: Fs, op: Op, fs': Fs, t: State)
    requires fs.Ok() && op.nr < NR_INODES && Wrote(fs, op, fs', t)
    ensures |fs'.inodes| == |fs'.owns| == NR_INODES && fs'.inodes[op.nr] == t.din && fs'.owns[op.nr] == t.own &&
            t.din.iType == fs.inodes[op.nr].iType
  {
  }

  /** A successful write into a directory, or at its end, makes of its bytes what a write into the array does. */
  lemma WriteAgrees(fs: Fs, nodes: map<int, Node>, nr: nat, buf: seq<Byte>, start: nat, fs': Fs)
    requires Agrees(fs, nodes) && nr in nodes && nodes[nr].Dir? && start <= |nodes[nr].data| &&
             Step(fs, Write(nr, buf, start), fs')
    ensures Agrees(fs', nodes[nr := Dir(Dirents.WriteBytes(nodes[nr].data, start, buf))])
  {
    var op, data := Write(nr, buf, start), nodes[nr].data;
    assert NodeOk(fs, nodes, nr);
    WrittenInode(fs, op, fs');
    var t := WroteState(fs, op, fs');
    WrittenType(fs, op, fs', t);
    WriteHolds(fs, nr, data, buf, start, fs', t);
    hide Step;
    hide Fs.Ok;
    StepAgrees(fs, op, fs', nodes, nodes[nr := Dir(Dirents.WriteBytes(data, start, buf))]);
  }

  lemma WriteHolds(fs: Fs, nr: nat, data: seq<Byte>, buf: seq<Byte>, start: nat, fs': Fs, t: State)
    requires fs.Ok() && nr < NR_INODES && Holds(fs.Of(nr), data) && start <= |data| && |buf| > 0 &&
             Wrote(fs, Write(nr, buf, start), fs', t)
    requires forall off :: 0 <= off < MAX_FILE_SIZE ==> ByteAt(fs'.Of(nr), off) == ByteAt(t, off)
    ensures Holds(fs'.Of(nr), Dirents.WriteBytes(data, start, buf))
  {
    assert fs.Good(nr);
    var k, tail :| WriteDone(fs.Of(nr), buf, start, k, tail, t);
    HeldWrite(fs.Of(nr), data, buf, start, k, tail, t);
  }

  /** A write into a plain file, successful or failed in a way that keeps order, is of no concern to the directories. */
  lemma WriteFileAgrees(fs: Fs, nodes: map<int, Node>, op: Op, fs': Fs)
    requires Agrees(fs, nodes) && (op.Write? || op.FailWrite?) && op.nr in nodes && nodes[op.nr] == File &&
             Step(fs, op, fs')
    ensures Agrees(fs', nodes)
  {
    assert NodeOk(fs, nodes, op.nr);
    WrittenInode(fs, op, fs');
    var t := WroteState(fs, op, fs');
    WrittenType(fs, op, fs', t);
    hide Step;
    hide Fs.Ok;
    StepAgrees(fs, op, fs', nodes, nodes);
  }

  /** testfs_remove_inode */
  lemma RemoveAgrees(fs: Fs, nodes: map<int, Node>, nr: nat, fs': Fs)
    requires Agrees(fs, nodes) && Step(fs, Remove(nr), fs')
    ensures Agrees(fs', nodes - {nr})
  {
    RemovedBits(fs, nr, fs');
    hide Step;
    hide Fs.Ok;
    StepAgrees(fs, Remove(nr), fs', nodes, nodes - {nr});
  }

  lemma RemovedBits(fs: Fs, nr: nat, fs': Fs)
    requires Step(fs, Remove(nr), fs')
    ensures nr in fs.bits && fs'.bits == fs.bits - {nr}
  {
  }

  /** A failed write at the end of a directory changes nothing that matters if and only if it keeps order, and did
      not fail at the last of several blocks. */
  lemma FailedAppendExact(fs: Fs, nodes: map<int, Node>, nr: nat, buf: seq<Byte>, fs': Fs)
    requires Agrees(fs, nodes) && nr in nodes && nodes[nr].Dir? && |buf| > 0
    requires nr < |fs.inodes| == |fs.owns| && FailedWrite(fs, nr, buf, |nodes[nr].data|, fs')
    ensures var s, start := fs.Of(nr), |nodes[nr].data|;
            var k := StopOf(s, |buf|, start);
            Agrees(fs', nodes) <==>
              KeepsOrder(s, |buf|, start, k) && !(start / BLOCK_SIZE < k == LastBlock(start, |buf|))
  {
    var s, start := fs.Of(nr), |nodes[nr].data|;
    assert NodeOk(fs, nodes, nr) && fs.Good(nr);
    FailedWriteExact(fs, nr, buf, start, fs');
    var k, t :| Stopped(s, buf, start, k, t) && Becomes(fs, nr, t, fs');
    StoppedWhere(s, buf, start, k, t);
    FailedAppend(s, nodes[nr].data, buf, k, t);
    if KeepsOrder(s, |buf|, start, k) {
      FailOk(fs, nr, buf, start, k, t, fs');
      FailedNode(fs, nodes, nr, buf, k, t, fs');
    }
  }

  lemma FailedNode(fs: Fs, nodes: map<int, Node>, nr: nat, buf: seq<Byte>, k: nat, t: State, fs': Fs)
    requires Agrees(fs, nodes) && nr in nodes && nodes[nr].Dir? && |buf| > 0 && nr < NR_INODES
    requires Stopped(fs.Of(nr), buf, |nodes[nr].data|, k, t) && Becomes(fs, nr, t, fs') &&
             FailedWrite(fs, nr, buf, |nodes[nr].data|, fs')
    requires k == StopOf(fs.Of(nr), |buf|, |nodes[nr].data|) && KeepsOrder(fs.Of(nr), |buf|, |nodes[nr].data|, k)
    requires forall off :: 0 <= off < MAX_FILE_SIZE ==> ByteAt(fs'.Of(nr), off) == ByteAt(t, off)
    ensures Agrees(fs', nodes) <==> Holds(t, nodes[nr].data)
  {
    var op := FailWrite(nr, buf, |nodes[nr].data|, k);
    assert NodeOk(fs, nodes, nr);
    assert Step(fs, op, fs');
    assert fs'.inodes[nr] == t.din && fs'.owns[nr] == t.own && t.din.iType == fs.inodes[nr].iType;
    assert Holds(fs'.Of(nr), nodes[nr].data) <==> Holds(t, nodes[nr].data);
    assert Agrees(fs', nodes) ==> NodeOk(fs', nodes, nr);
    if Holds(t, nodes[nr].data) {
      WrittenInode(fs, op, fs');
      StepAgrees(fs, op, fs', nodes, nodes);
    }
  }

  // ---- Records ----

  /** The bytes of a directory with a new entry, where testfs_add_dirent puts it */
  lemma AddedData(data: seq<Byte>, recs: seq<Dirents.Rec>, name: seq<Byte>, nr: int)
    requires Dirents.Packed(data, recs) && Dirents.IsName(name) && nr >= 0 && IsS32(nr) && name !in Dirents.Names(recs)
    ensures var at := Dirents.Start(recs, Dirents.StopOf(recs, name, 0));
            at <= |data| && Dirents.Packed(Dirents.WriteBytes(data, at, Dirents.Rec(nr, name).Encode()),
                                           Dirents.Added(recs, name, nr))
  {
    var i := Dirents.StopOf(recs, name, 0);
    Dirents.LookupIsMap(recs, name);
    if i == |recs| {
      assert recs[..i] == recs;
      Dirents.WriteAtEnd(data, recs, Dirents.Rec(nr, name));
    } else {
      Dirents.WriteInPlace(data, recs, i, Dirents.Rec(nr, name));
    }
  }

  lemma EmptyDirData(nr: int, parent: int)
    requires 0 <= nr && 0 <= parent && IsS32(nr) && IsS32(parent)
    ensures var dot, dotDot := Dirents.Rec(nr, Dot()).Encode(), Dirents.Rec(parent, DotDot()).Encode();
            |dot| == 10 && |dotDot| == 11 &&
            Dirents.Packed(Dirents.WriteBytes(Dirents.WriteBytes([], 0, dot), 10, dotDot), NewDir(nr, parent))
  {
    var r0, r1 := Dirents.Rec(nr, Dot()), Dirents.Rec(parent, DotDot());
    assert Dirents.Packed([], []);
    Dirents.WriteAtEnd([], [], r0);
    var data := Dirents.WriteBytes([], 0, r0.Encode());
    assert [] + [r0] == [r0];
    Dirents.WriteAtEnd(data, [r0], r1);
    assert [r0] + [r1] == NewDir(nr, parent);
  }

  // ---- The commands ----

  /** The file system, its files and directories, the tree that these form, and the current directory */
  datatype World = World(fs: Fs, nodes: map<int, Node>, tree: Tree, cur: int) {
    ghost predicate Ok() {
      Agrees(fs, nodes) && tree.Ok() && Shows(nodes, tree) && cur in tree.recs
    }
  }

  /** From fs to fs', testfs_create_inode and, for a directory, testfs_create_empty_dir were done. */
  ghost predicate Made(fs: Fs, nr: nat, parent: int, isDir: bool, fs': Fs) {
    if !isDir then Step(fs, Create(nr, I_FILE), fs')
    else
      exists fs1, fs2 ::
        Step(fs, Create(nr, I_DIR), fs1) && Step(fs1, Write(nr, Dirents.Rec(nr, Dot()).Encode(), 0), fs2) &&
        Step(fs2, Write(nr, Dirents.Rec(parent, DotDot()).Encode(), 10), fs')
  }

  /** The node of a new file or directory */
  ghost predicate NewNode(node: Node, nr: int, parent: int, isDir: bool) {
    if isDir then node.Dir? && Dirents.Packed(node.data, NewDir(nr, parent)) else node == File
  }

  lemma MadeAgrees(fs: Fs, nodes: map<int, Node>, nr: nat, parent: int, isDir: bool, fs': Fs) returns (node: Node)
    requires Agrees(fs, nodes) && Made(fs, nr, parent, isDir, fs') && 0 <= parent && IsS32(parent)
    ensures nr !in nodes && NewNode(node, nr, parent, isDir) && Agrees(fs', nodes[nr := node])
  {
    hide Step;
    hide Agrees;
    if !isDir {
      node := File;
      CreateAgrees(fs, nodes, nr, false, fs');
    } else {
      var fs1, fs2 :|
        Step(fs, Create(nr, I_DIR), fs1) && Step(fs1, Write(nr, Dirents.Rec(nr, Dot()).Encode(), 0), fs2) &&
        Step(fs2, Write(nr, Dirents.Rec(parent, DotDot()).Encode(), 10), fs');
      StepNumber(fs, nodes, Create(nr, I_DIR), fs1);
      EmptyDirData(nr, parent);
      CreateAgrees(fs, nodes, nr, true, fs1);
      var data1 := Dirents.WriteBytes([], 0, Dirents.Rec(nr, Dot()).Encode());
      WriteAgrees(fs1, nodes[nr := Dir([])], nr, Dirents.Rec(nr, Dot()).Encode(), 0, fs2);
      assert nodes[nr := Dir([])][nr := Dir(data1)] == nodes[nr := Dir(data1)];
      node := Dir(Dirents.WriteBytes(data1, 10, Dirents.Rec(parent, DotDot()).Encode()));
      WriteAgrees(fs2, nodes[nr := Dir(data1)], nr, Dirents.Rec(parent, DotDot()).Encode(), 10, fs');
      assert nodes[nr := Dir(data1)][nr := node] == nodes[nr := node];
    }
  }

  lemma StepNumber(fs: Fs, nodes: map<int, Node>, op: Op, fs': Fs)
    requires Agrees(fs, nodes) && Step(fs, op, fs')
    ensures op.nr < NR_INODES
  {
    hide Step;
    StepInode(fs, op, fs');
  }

  /** The writing of "." into a new directory fails only when no block is left, and then in order. */
  lemma DotFails(fs: Fs, nodes: map<int, Node>, nr: nat, buf: seq<Byte>, fs': Fs)
    requires Agrees(fs, nodes) && nr in nodes && nodes[nr] == Dir([]) && 0 < |buf| <= BLOCK_SIZE
    requires nr < |fs.inodes| == |fs.owns| && Blocked(fs.Of(nr), 0, LastBlock(0, |buf|)) &&
             FailedWrite(fs, nr, buf, 0, fs')
    ensures Room(fs.sb) <= 0 && Step(fs, FailWrite(nr, buf, 0, 0), fs')
  {
    assert NodeOk(fs, nodes, nr);
    var s := fs.Of(nr);
    assert NeedSpan(s, 0, 1) == NeedSpan(s, 0, 0) + NeedAt(s, 0, 0) <= 1;
    var k, t :| Stopped(s, buf, 0, k, t) && Becomes(fs, nr, t, fs');
    StoppedWhere(s, buf, 0, k, t);
  }

  /** The writing of ".." into a new directory cannot fail: its block is there by then. */
  lemma DotDotFits(fs: Fs, nodes: map<int, Node>, nr: nat, fs1: Fs, fs2: Fs, n: nat)
    requires Agrees(fs, nodes) && Step(fs, Create(nr, I_DIR), fs1) &&
             Step(fs1, Write(nr, Dirents.Rec(nr, Dot()).Encode(), 0), fs2)
    requires Room(fs2.sb) >= 0 && 0 < n && 10 + n <= BLOCK_SIZE
    ensures nr < NR_INODES == |fs2.inodes| == |fs2.owns| && !Blocked(fs2.Of(nr), 10 / BLOCK_SIZE, LastBlock(10, n))
  {
    StepNumber(fs, nodes, Create(nr, I_DIR), fs1);
    CreateAgrees(fs, nodes, nr, true, fs1);
    EmptyDirData(nr, 0);
    var buf := Dirents.Rec(nr, Dot()).Encode();
    WriteAgrees(fs1, nodes[nr := Dir([])], nr, buf, 0, fs2);
    var nodes2 := nodes[nr := Dir([])][nr := Dir(Dirents.WriteBytes([], 0, buf))];
    assert NodeOk(fs2, nodes2, nr) && fs2.Good(nr);
    FirstBlockFits(fs2.Of(nr), nodes2[nr].data, 10, n);
  }

  /** The place in the current directory where an entry goes */
  ghost function EntryAt(w: World, name: seq<Byte>): nat
    requires w.cur in w.tree.recs
  {
    Dirents.Start(w.tree.recs[w.cur], Dirents.StopOf(w.tree.recs[w.cur], name, 0))
  }

  /** cmd_mkdir and cmd_create, successful */
  ghost predicate Creation(w: World, isDir: bool, name: seq<Byte>, nr: nat, w': World)
    requires w.Ok()
  {
    Dirents.IsName(name) && name !in Dirents.Names(w.tree.recs[w.cur]) && w'.cur == w.cur && w.cur in w.tree.depth &&
    w'.tree == w.tree.Created(w.cur, name, nr, isDir) && 0 <= w.cur && Shows(w'.nodes, w'.tree) &&
    exists fs1 :: Made(w.fs, nr, w.cur, isDir, fs1) &&
      Step(fs1, Write(w.cur, Dirents.Rec(nr, name).Encode(), EntryAt(w, name)), w'.fs)
  }

  lemma CreationOk(w: World, isDir: bool, name: seq<Byte>, nr: nat, w': World)
    requires w.Ok() && Creation(w, isDir, name, nr, w')
    ensures w'.Ok()
  {
    hide Step;
    hide Agrees;
    hide Made;
    hide Tree.Ok;
    hide Dirents.Packed;
    var fs1 :| Made(w.fs, nr, w.cur, isDir, fs1) &&
      Step(fs1, Write(w.cur, Dirents.Rec(nr, name).Encode(), EntryAt(w, name)), w'.fs);
    NodeNumber(w.fs, w.nodes, w.cur);
    var node := MadeAgrees(w.fs, w.nodes, nr, w.cur, isDir, fs1);
    var nodes1 := w.nodes[nr := node];
    NodeNumber(fs1, nodes1, nr);
    CreatedOk(w.tree, w.cur, name, nr, isDir);
    DirNode(w.nodes, w.tree, w.cur);
    AddedData(w.nodes[w.cur].data, w.tree.recs[w.cur], name, nr);
    var data := Dirents.WriteBytes(w.nodes[w.cur].data, EntryAt(w, name), Dirents.Rec(nr, name).Encode());
    WriteAgrees(fs1, nodes1, w.cur, Dirents.Rec(nr, name).Encode(), EntryAt(w, name), w'.fs);
    CreatedShows(w.nodes, w.tree, w.cur, name, nr, data, node);
    assert nodes1[w.cur := Dir(data)] == w.nodes[w.cur := Dir(data)][nr := node];
    SameNodes(nodes1[w.cur := Dir(data)], w'.nodes, w'.tree);
  }

  /** The operations of a creation, done one after the other, are a creation. */
  lemma CreationDone(w: World, isDir: bool, name: seq<Byte>, nr: nat, fs1: Fs, fs2: Fs) returns (w': World)
    requires w.Ok() && Dirents.IsName(name) && name !in Dirents.Names(w.tree.recs[w.cur]) && 0 <= w.cur
    requires Made(w.fs, nr, w.cur, isDir, fs1)
    requires Step(fs1, Write(w.cur, Dirents.Rec(nr, name).Encode(), EntryAt(w, name)), fs2)
    ensures Creation(w, isDir, name, nr, w') && w'.fs == fs2 && w'.cur == w.cur
  {
    hide Step;
    hide Agrees;
    hide Made;
    hide Dirents.Packed;
    assert w.cur in w.tree.depth;
    hide Tree.Ok;
    NodeNumber(w.fs, w.nodes, w.cur);
    var node := MadeAgrees(w.fs, w.nodes, nr, w.cur, isDir, fs1);
    NodeNumber(fs1, w.nodes[nr := node], nr);
    CreatedOk(w.tree, w.cur, name, nr, isDir);
    DirNode(w.nodes, w.tree, w.cur);
    AddedData(w.nodes[w.cur].data, w.tree.recs[w.cur], name, nr);
    var data := Dirents.WriteBytes(w.nodes[w.cur].data, EntryAt(w, name), Dirents.Rec(nr, name).Encode());
    CreatedShows(w.nodes, w.tree, w.cur, name, nr, data, node);
    w' := World(fs2, w.nodes[w.cur := Dir(data)][nr := node], w.tree.Created(w.cur, name, nr, isDir), w.cur);
  }

  /** The tree determines the nodes. */
  lemma SameNodes(nodes: map<int, Node>, nodes': map<int, Node>, t: Tree)
    requires Shows(nodes, t) && Shows(nodes', t)
    ensures nodes == nodes'
  {
    forall nr ensures nr in nodes <==> nr in nodes' {
    }
    forall nr | nr in nodes ensures nodes[nr] == nodes'[nr] {
    }
  }

  lemma NodeNumber(fs: Fs, nodes: map<int, Node>, nr: int)
    requires Agrees(fs, nodes) && nr in nodes
    ensures 0 <= nr < NR_INODES == |fs.inodes| == |fs.owns| && IsS32(nr) && nr in fs.bits
  {
    assert NodeOk(fs, nodes, nr);
  }

  lemma FailStep(fs: Fs, nr: nat, buf: seq<Byte>, start: nat, k: nat, fs': Fs)
    requires Step(fs, FailWrite(nr, buf, start, k), fs')
    ensures nr < |fs.inodes| == |fs.owns| && FailedWrite(fs, nr, buf, start, fs')
    ensures k == StopOf(fs.Of(nr), |buf|, start) && KeepsOrder(fs.Of(nr), |buf|, start, k)
  {
  }

  /** cmd_mkdir, when the new directory cannot be filled: its inode is removed again, and everything is as before. */
  lemma EmptyDirUndone(w: World, nr: nat, buf: seq<Byte>, k: nat, fs1: Fs, fs2: Fs, fs3: Fs)
    requires w.Ok() && Step(w.fs, Create(nr, I_DIR), fs1) && |buf| == 10
    requires Step(fs1, FailWrite(nr, buf, 0, k), fs2) && Step(fs2, Remove(nr), fs3)
    ensures w.(fs := fs3).Ok()
  {
    hide Step;
    hide Agrees;
    hide Tree.Ok;
    hide FailedWrite;
    hide KeepsOrder;
    hide StopOf;
    StepNumber(w.fs, w.nodes, Create(nr, I_DIR), fs1);
    CreateAgrees(w.fs, w.nodes, nr, true, fs1);
    var nodes1 := w.nodes[nr := Dir([])];
    FailStep(fs1, nr, buf, 0, k, fs2);
    FailedAppendExact(fs1, nodes1, nr, buf, fs2);
    RemoveAgrees(fs2, nodes1, nr, fs3);
    assert nodes1 - {nr} == w.nodes;
  }

  /** Only a new entry at the end of a directory can fail to be written; a place that is used again has its blocks. */
  lemma OnlyAppendFails(w: World, name: seq<Byte>, nr: nat, fs1: Fs, nodes1: map<int, Node>, fs2: Fs)
    requires w.Ok() && Dirents.IsName(name) && name !in Dirents.Names(w.tree.recs[w.cur]) && nr < NR_INODES
    requires Agrees(fs1, nodes1) && w.cur in nodes1 && w.cur in w.nodes && nodes1[w.cur] == w.nodes[w.cur] &&
             w.cur >= 0 && Room(fs1.sb) >= 0
    requires FailedWrite(fs1, w.cur, Dirents.Rec(nr, name).Encode(), EntryAt(w, name), fs2)
    ensures w.nodes[w.cur].Dir? && EntryAt(w, name) == |w.nodes[w.cur].data|
  {
    var recs, i := w.tree.recs[w.cur], Dirents.StopOf(w.tree.recs[w.cur], name, 0);
    var data, buf, at := w.nodes[w.cur].data, Dirents.Rec(nr, name).Encode(), EntryAt(w, name);
    hide Agrees;
    hide Tree.Ok;
    DirNode(w.nodes, w.tree, w.cur);
    Dirents.LookupIsMap(recs, name);
    if i < |recs| {
      Dirents.RecordAt(data, recs, i);
      CannotFail(fs1, nodes1, w.cur, buf, at, fs2);
    } else {
      assert recs[..i] == recs;
    }
  }

  lemma CannotFail(fs: Fs, nodes: map<int, Node>, nr: nat, buf: seq<Byte>, start: nat, fs': Fs)
    requires Agrees(fs, nodes) && nr in nodes && nodes[nr].Dir? && |buf| > 0 && start + |buf| <= |nodes[nr].data| &&
             Room(fs.sb) >= 0
    ensures !FailedWrite(fs, nr, buf, start, fs')
  {
    assert NodeOk(fs, nodes, nr) && fs.Good(nr);
    InPlaceFits(fs.Of(nr), nodes[nr].data, start, |buf|);
    if k, t :| Stopped(fs.Of(nr), buf, start, k, t) && Becomes(fs, nr, t, fs') {
      BlockedLater(fs.Of(nr), start / BLOCK_SIZE, k, LastBlock(start, |buf|));
    }
  }

  /** How a new entry fails without harm: in order, and not at the last of several blocks */
  ghost predicate FailsCleanly(fs: Fs, d: nat, n: nat, at: nat) {
    d < |fs.inodes| == |fs.owns| &&
    var k := StopOf(fs.Of(d), n, at);
    KeepsOrder(fs.Of(d), n, at, k) && !(at / BLOCK_SIZE < k == LastBlock(at, n))
  }

  /** cmd_mkdir and cmd_create, when the entry cannot be written: the directory is as before if and only if the
      write fails cleanly; the new inode is then removed again, and everything is as before. */
  lemma EntryUndone(w: World, isDir: bool, name: seq<Byte>, nr: nat, fs1: Fs, node: Node, fs2: Fs)
    requires w.Ok() && Dirents.IsName(name) && name !in Dirents.Names(w.tree.recs[w.cur]) && 0 <= w.cur &&
             nr < NR_INODES && nr !in w.nodes
    requires Agrees(fs1, w.nodes[nr := node]) && Room(fs1.sb) >= 0
    requires FailedWrite(fs1, w.cur, Dirents.Rec(nr, name).Encode(), EntryAt(w, name), fs2)
    ensures Agrees(fs2, w.nodes[nr := node]) <==>
              FailsCleanly(fs1, w.cur, Dirents.Rec(nr, name).Size(), EntryAt(w, name))
    ensures forall fs3 :: Agrees(fs2, w.nodes[nr := node]) && Step(fs2, Remove(nr), fs3) ==> w.(fs := fs3).Ok()
  {
    hide Step;
    hide Agrees;
    hide Tree.Ok;
    hide KeepsOrder;
    hide FailedWrite;
    hide StopOf;
    DirNode(w.nodes, w.tree, w.cur);
    var nodes1 := w.nodes[nr := node];
    NodeNumber(fs1, nodes1, w.cur);
    OnlyAppendFails(w, name, nr, fs1, nodes1, fs2);
    FailedAppendExact(fs1, nodes1, w.cur, Dirents.Rec(nr, name).Encode(), fs2);
    forall fs3 | Agrees(fs2, nodes1) && Step(fs2, Remove(nr), fs3) ensures w.(fs := fs3).Ok() {
      RemoveAgrees(fs2, nodes1, nr, fs3);
      assert nodes1 - {nr} == w.nodes;
    }
  }

  /** cmd_rm: the tombstone is written, and the inode is removed. */
  ghost predicate Removal(w: World, name: seq<Byte>, w': World)
    requires w.Ok()
  {
    var recs := w.tree.recs[w.cur];
    var i := Dirents.IndexOf(recs, name, 0);
    Dirents.IsName(name) && name in Dirents.Names(recs) && name != Dot() && name != DotDot() && i < |recs| &&
    !w.tree.Occupied(recs[i].inodeNr) && recs[i].inodeNr >= 0 && 0 <= w.cur &&
    w'.tree == w.tree.Removed(w.cur, name) && w'.cur == w.cur && Shows(w'.nodes, w'.tree) &&
    exists fs1 ::
      Step(w.fs, Write(w.cur, Dirents.Rec(Dirents.INVALID_INODE_NR, name).Encode(), Dirents.Start(recs, i)), fs1) &&
      Step(fs1, Remove(recs[i].inodeNr), w'.fs)
  }

  lemma RemovalOk(w: World, name: seq<Byte>, w': World)
    requires w.Ok() && Removal(w, name, w')
    ensures w'.Ok()
  {
    hide Step;
    hide Agrees;
    hide Tree.Ok;
    hide Dirents.Packed;
    var recs, i := w.tree.recs[w.cur], Dirents.IndexOf(w.tree.recs[w.cur], name, 0);
    var tomb, at, nr := Dirents.Rec(Dirents.INVALID_INODE_NR, name), Dirents.Start(recs, i), recs[i].inodeNr;
    var fs1 :| Step(w.fs, Write(w.cur, tomb.Encode(), at), fs1) && Step(fs1, Remove(nr), w'.fs);
    DirNode(w.nodes, w.tree, w.cur);
    Dirents.WriteInPlace(w.nodes[w.cur].data, recs, i, tomb);
    var data := Dirents.WriteBytes(w.nodes[w.cur].data, at, tomb.Encode());
    WriteAgrees(w.fs, w.nodes, w.cur, tomb.Encode(), at, fs1);
    RemoveAgrees(fs1, w.nodes[w.cur := Dir(data)], nr, w'.fs);
    RemovedOk(w.tree, w.cur, name);
    RemovedShows(w.nodes, w.tree, w.cur, name, data);
    SameNodes(w.nodes[w.cur := Dir(data)] - {nr}, w'.nodes, w'.tree);
  }

  /** The operations of a removal, done one after the other, are a removal. */
  lemma RemovalDone(w: World, name: seq<Byte>, fs1: Fs, fs2: Fs) returns (w': World)
    requires w.Ok() && Dirents.IsName(name) && name in Dirents.Names(w.tree.recs[w.cur]) && name != Dot() &&
             name != DotDot() && 0 <= w.cur
    requires var recs, i := w.tree.recs[w.cur], Dirents.IndexOf(w.tree.recs[w.cur], name, 0);
             i < |recs| && recs[i].inodeNr >= 0 && !w.tree.Occupied(recs[i].inodeNr) &&
             Step(w.fs, Write(w.cur, Dirents.Rec(Dirents.INVALID_INODE_NR, name).Encode(), Dirents.Start(recs, i)),
                  fs1) &&
             Step(fs1, Remove(recs[i].inodeNr), fs2)
    ensures Removal(w, name, w') && w'.fs == fs2
  {
    hide Step;
    hide Agrees;
    hide Tree.Ok;
    hide Tree.Occupied;
    hide Dirents.Packed;
    var recs, i := w.tree.recs[w.cur], Dirents.IndexOf(w.tree.recs[w.cur], name, 0);
    var tomb := Dirents.Rec(Dirents.INVALID_INODE_NR, name);
    DirNode(w.nodes, w.tree, w.cur);
    Dirents.WriteInPlace(w.nodes[w.cur].data, recs, i, tomb);
    var data := Dirents.WriteBytes(w.nodes[w.cur].data, Dirents.Start(recs, i), tomb.Encode());
    RemovedShows(w.nodes, w.tree, w.cur, name, data);
    w' := World(fs2, w.nodes[w.cur := Dir(data)] - {recs[i].inodeNr}, w.tree.Removed(w.cur, name), w.cur);
  }

  /** The writing of a tombstone cannot fail. */
  lemma TombstoneFits(w: World, name: seq<Byte>, fs': Fs)
    requires w.Ok() && Dirents.IsName(name) && Dirents.IndexOf(w.tree.recs[w.cur], name, 0) < |w.tree.recs[w.cur]| &&
             0 <= w.cur && Room(w.fs.sb) >= 0
    ensures !FailedWrite(w.fs, w.cur, Dirents.Rec(Dirents.INVALID_INODE_NR, name).Encode(),
                         Dirents.Start(w.tree.recs[w.cur], Dirents.IndexOf(w.tree.recs[w.cur], name, 0)), fs')
  {
    hide Agrees;
    hide Tree.Ok;
    hide FailedWrite;
    DirNode(w.nodes, w.tree, w.cur);
    var recs, i := w.tree.recs[w.cur], Dirents.IndexOf(w.tree.recs[w.cur], name, 0);
    Dirents.RecordAt(w.nodes[w.cur].data, recs, i);
    CannotFail(w.fs, w.nodes, w.cur, Dirents.Rec(Dirents.INVALID_INODE_NR, name).Encode(), Dirents.Start(recs, i), fs');
  }

  // ---- Runs of commands ----

  datatype Command =
    | Make(isDir: bool, name: seq<Byte>, nr: nat)
    | MakeFails(isDir: bool, name: seq<Byte>, nr: nat)
    | Rm(name: seq<Byte>)
    | Cd(name: seq<Byte>)
    | WriteFile(op: Op)

  /** A creation that fails: the new directory cannot be filled, or the entry cannot be written, but that cleanly;
      the new inode is removed again. */
  ghost predicate FailedCreation(w: World, isDir: bool, name: seq<Byte>, nr: nat, fs': Fs)
    requires w.Ok()
  {
    Dirents.IsName(name) && name !in Dirents.Names(w.tree.recs[w.cur]) && 0 <= w.cur &&
    ((isDir &&
      exists fs1, fs2, k ::
        Step(w.fs, Create(nr, I_DIR), fs1) && Step(fs1, FailWrite(nr, Dirents.Rec(nr, Dot()).Encode(), 0, k), fs2) &&
        Step(fs2, Remove(nr), fs')) ||
     exists fs1, fs2 ::
       Made(w.fs, nr, w.cur, isDir, fs1) && Room(fs1.sb) >= 0 &&
       FailedWrite(fs1, w.cur, Dirents.Rec(nr, name).Encode(), EntryAt(w, name), fs2) &&
       FailsCleanly(fs1, w.cur, Dirents.Rec(nr, name).Size(), EntryAt(w, name)) && Step(fs2, Remove(nr), fs'))
  }

  lemma FailedCreationOk(w: World, isDir: bool, name: seq<Byte>, nr: nat, fs': Fs)
    requires w.Ok() && FailedCreation(w, isDir, name, nr, fs')
    ensures w.(fs := fs').Ok()
  {
    hide Step;
    hide Agrees;
    hide Tree.Ok;
    hide Made;
    hide FailedWrite;
    hide FailsCleanly;
    hide Dirents.Names;
    hide EntryAt;
    if fs1, fs2, k :|
      isDir && Step(w.fs, Create(nr, I_DIR), fs1) &&
      Step(fs1, FailWrite(nr, Dirents.Rec(nr, Dot()).Encode(), 0, k), fs2) &&
      Step(fs2, Remove(nr), fs') {
      EmptyDirUndone(w, nr, Dirents.Rec(nr, Dot()).Encode(), k, fs1, fs2, fs');
    } else {
      var fs1, fs2 :|
        Made(w.fs, nr, w.cur, isDir, fs1) && Room(fs1.sb) >= 0 &&
        FailedWrite(fs1, w.cur, Dirents.Rec(nr, name).Encode(), EntryAt(w, name), fs2) &&
        FailsCleanly(fs1, w.cur, Dirents.Rec(nr, name).Size(), EntryAt(w, name)) && Step(fs2, Remove(nr), fs');
      DirNode(w.nodes, w.tree, w.cur);
      NodeNumber(w.fs, w.nodes, w.cur);
      var node := MadeAgrees(w.fs, w.nodes, nr, w.cur, isDir, fs1);
      NodeNumber(fs1, w.nodes[nr := node], nr);
      EntryUndone(w, isDir, name, nr, fs1, node, fs2);
    }
  }

  ghost predicate CommandStep(w: World, c: Command, w': World)
    requires w.Ok()
  {
    match c
    case Make(isDir, name, nr) => Creation(w, isDir, name, nr, w')
    case MakeFails(isDir, name, nr) => FailedCreation(w, isDir, name, nr, w'.fs) && w' == w.(fs := w'.fs)
    case Rm(name) => Removal(w, name, w')
    case Cd(name) =>
      var names := Dirents.Names(w.tree.recs[w.cur]);
      name in names && names[name] in w.tree.recs && w' == w.(cur := names[name])
    case WriteFile(op) =>
      (op.Write? || op.FailWrite?) && op.nr in w.nodes && w.nodes[op.nr] == File && Step(w.fs, op, w'.fs) &&
      w' == w.(fs := w'.fs)
  }

  /** Every command keeps the file system in order, its directories the files that hold their bytes, and these a
      tree. */
  lemma CommandKeepsOk(w: World, c: Command, w': World)
    requires w.Ok() && CommandStep(w, c, w')
    ensures w'.Ok()
  {
    hide Step;
    hide Agrees;
    hide Tree.Ok;
    hide Creation;
    hide FailedCreation;
    hide Removal;
    match c
    case Make(isDir, name, nr) => CreationOk(w, isDir, name, nr, w');
    case MakeFails(isDir, name, nr) => FailedCreationOk(w, isDir, name, nr, w'.fs);
    case Rm(name) => RemovalOk(w, name, w');
    case Cd(name) =>
    case WriteFile(op) => WriteFileAgrees(w.fs, w.nodes, op, w'.fs);
  }

  ghost predicate CommandRun(worlds: seq<World>, commands: seq<Command>) {
    |worlds| == |commands| + 1 &&
    forall i :: 0 <= i < |commands| ==> worlds[i].Ok() ==> CommandStep(worlds[i], commands[i], worlds[i + 1])
  }

  /** The root directory, as testfs_make_root_dir makes it in a fresh file system */
  ghost predicate Root(w: World) {
    w.cur == 0 && w.tree == Tree(map[0 := NewDir(0, 0)], {}, map[], map[0 := 0]) && Shows(w.nodes, w.tree) &&
    exists disk: seq<Block>, sb: DSuperBlock ::
      |disk| == DEVICE_BLOCKS && sb.usedBlockCount == 0 && Made(Fresh(disk, sb), 0, 0, true, w.fs)
  }

  lemma RootTree()
    ensures Tree(map[0 := NewDir(0, 0)], {}, map[], map[0 := 0]).Ok()
  {
    NewDirUnique(0, 0);
    var t := Tree(map[0 := NewDir(0, 0)], {}, map[], map[0 := 0]);
    assert t.DirOk(0);
  }

  lemma RootOk(w: World)
    requires Root(w)
    ensures w.Ok()
  {
    hide Step;
    hide Fs.Ok;
    hide Fresh;
    hide Made;
    hide Dirents.Packed;
    var disk: seq<Block>, sb: DSuperBlock :| |disk| == DEVICE_BLOCKS && sb.usedBlockCount == 0 &&
      Made(Fresh(disk, sb), 0, 0, true, w.fs);
    FreshOk(disk, sb);
    FreshParts(disk, sb);
    var node := MadeAgrees(Fresh(disk, sb), map[], 0, 0, true, w.fs);
    RootTree();
    SameNodes(map[0 := node], w.nodes, w.tree);
    assert map[][0 := node] == map[0 := node];
  }

  /** From the root directory of a fresh file system on, every run of commands keeps all of it. */
  lemma {:induction false} CommandsKeepOk(worlds: seq<World>, commands: seq<Command>)
    requires CommandRun(worlds, commands) && Root(worlds[0])
    ensures worlds[|commands|].Ok()
  {
    hide World.Ok;
    hide CommandStep;
    hide Root;
    var n := |commands|;
    if n == 0 {
      RootOk(worlds[0]);
    } else {
      CommandsKeepOk(worlds[..n], commands[..n - 1]);
      CommandKeepsOk(worlds[n - 1], commands[n - 1], worlds[n]);
    }
  }
}
