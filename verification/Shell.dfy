/** The commands on the running file system: the inodes in memory, the device under them, and the current directory. */
module Shells {
  import opened Bytes
  import opened Bitmaps
  import opened Super
  import opened BlockMap
  import opened ReadWrite
  import opened FileData
  import opened FreeBlocks
  import opened FileTheorems
  import opened DiskInodes
  import opened FileSystem
  import opened InodeCache
  import opened DenseFiles
  import opened Trees
  import opened Directories
  import opened Commands
  import Dirents

  const EISDIR: int := 21

  /** The inode is allocated and, as directories are, a file without holes; its bytes are `data`. */
  ghost predicate IsDirectory(fs: Fs, nr: nat, data: seq<Byte>) {
    |fs.inodes| == |fs.owns| == NR_INODES && nr < NR_INODES && fs.Ok() && nr in fs.bits && Holds(fs.Of(nr), data)
  }

  /** The bytes of a directory; testfs_next_dirent reads them piece by piece, which is the same by
      DenseFiles.HeldReads. */
  method ReadBytes(table: InodeTable, file: Inode, ghost fs: Fs, ghost data: seq<Byte>) returns (r: seq<Byte>)
    requires table.Shows(fs) && file.nr in table.cached && table.cached[file.nr] == file
    requires IsDirectory(fs, file.nr, data) && |data| < MAX_TRANSFER
    ensures r == data
  {
    hide InodeAt;
    hide InodeTable.Hashed;
    hide Filled;
    table.InMemory(file);
    assert fs.Good(file.nr);
    hide Fs.Ok;
    assert file.S(fs.owns[file.nr]) == fs.Of(file.nr);
    var buf := new Byte[file.din.iSize];
    ghost var was := buf[..];
    var ret := ReadData(file, buf, 0, file.din.iSize, fs.owns[file.nr]);
    HeldReads(fs.Of(file.nr), data, was, buf[..], 0, |data|);
    r := buf[..];
  }

  /** testfs_add_dirent */
  method AddDirent(table: InodeTable, file: Inode, name: seq<Byte>, inodeNr: int, ghost fs: Fs, ghost data: seq<Byte>,
                   ghost recs: seq<Dirents.Rec>)
    returns (ret: int, ghost fs': Fs)
    requires table.Shows(fs) && file.nr in table.cached && table.cached[file.nr] == file
    requires IsDirectory(fs, file.nr, data) && Dirents.Packed(data, recs) && Dirents.IsName(name)
    requires 0 <= inodeNr && IsS32(inodeNr) && |data| + |name| + 9 < MAX_TRANSFER
    modifies file`din, file`dirty, table.sb, table.sb.blockFreemap, table.sb.blockFreemap.v
    ensures table.Shows(fs')
    ensures var i := Dirents.StopOf(recs, name, 0);
            if i < |recs| && recs[i].Live() then ret == -Dirents.EEXIST && fs' == fs
            else CmdWrite(fs, file.nr, Dirents.Rec(inodeNr, name).Encode(), Dirents.Start(recs, i), ret, fs')
  {
    hide InodeTable.Shows;
    hide Fs.Ok;
    hide Dirents.Packed;
    hide CmdWrite;
    hide Holds;
    fs' := fs;
    var bytes := ReadBytes(table, file, fs, data);
    var at;
    ret, at := Dirents.FreePlace(bytes, name, recs);
    if ret < 0 {
      return;
    }
    var d := EncodeWords([|name| + 1, inodeNr]) + name + [0];
    assert d == Dirents.Rec(inodeNr, name).Encode();
    ret, fs' := table.WriteHeld(file, d, at, fs);
  }

  lemma DirectoryNode(fs: Fs, nodes: map<int, Node>, nr: nat)
    requires Agrees(fs, nodes) && nr in nodes && nodes[nr].Dir?
    ensures IsDirectory(fs, nr, nodes[nr].data) && fs.Ok()
  {
    assert NodeOk(fs, nodes, nr);
  }

  lemma RoomLeft(table: InodeTable, fs: Fs)
    requires table.Shows(fs)
    ensures Room(fs.sb) >= 0 && |fs.used| <= NR_BLOCK_BITS
  {
    Mounted(table.sb);
  }

  lemma CmdWritten(fs: Fs, nr: nat, buf: seq<Byte>, start: nat, ret: int, fs': Fs)
    requires CmdWrite(fs, nr, buf, start, ret, fs')
    ensures nr < |fs.inodes| == |fs.owns|
    ensures ret >= 0 <==> !Blocked(fs.Of(nr), start / BLOCK_SIZE, LastBlock(start, |buf|))
    ensures ret >= 0 ==> Step(fs, Write(nr, buf, start), fs')
    ensures ret < 0 ==> FailedWrite(fs, nr, buf, start, fs')
  {
  }

  lemma DotRecord(nr: int, parent: int)
    requires 0 <= nr && 0 <= parent && IsS32(nr) && IsS32(parent)
    ensures var dot := Dirents.Rec(nr, Dot());
            |dot.Encode()| == 10 && Dirents.Packed([], []) &&
            Dirents.Packed(Dirents.WriteBytes([], 0, dot.Encode()), [dot]) &&
            |Dirents.WriteBytes([], 0, dot.Encode())| == 10 && |Dirents.Rec(parent, DotDot()).Encode()| == 11
    ensures Dirents.StopOf([], Dot(), 0) == 0 == Dirents.Start([], 0)
    ensures Dirents.StopOf([Dirents.Rec(nr, Dot())], DotDot(), 0) == 1 &&
            Dirents.Start([Dirents.Rec(nr, Dot())], 1) == 10
  {
    EmptyDirData(nr, parent);
    Dirents.WriteAtEnd([], [], Dirents.Rec(nr, Dot()));
    assert [] + [Dirents.Rec(nr, Dot())] == [Dirents.Rec(nr, Dot())];
    assert [Dirents.Rec(nr, Dot())][..1] == [Dirents.Rec(nr, Dot())];
  }

  /** testfs_create_empty_dir: when "." cannot be written, no block was left; ".." can always be written, so that the
      removal of "." after it is never reached. */
  method CreateEmptyDir(table: InodeTable, file: Inode, parent: int, ghost fs: Fs, ghost nodes: map<int, Node>,
                        ghost fs1: Fs)
    returns (ret: int, ghost fs': Fs)
    requires Agrees(fs, nodes) && Step(fs, Create(file.nr, I_DIR), fs1) && 0 <= parent && IsS32(parent)
    requires table.Shows(fs1) && file.nr in table.cached && table.cached[file.nr] == file
    modifies file`din, file`dirty, table.sb, table.sb.blockFreemap, table.sb.blockFreemap.v
    ensures table.Shows(fs')
    ensures ret >= 0 ==> Commands.Made(fs, file.nr, parent, true, fs')
    ensures ret < 0 ==>
              Room(fs1.sb) <= 0 &&
              Step(fs1, FailWrite(file.nr, Dirents.Rec(file.nr, Dot()).Encode(), 0, 0), fs')
  {
    hide InodeTable.Shows;
    hide Agrees;
    hide Step;
    hide CmdWrite;
    hide IsDirectory;
    hide Dirents.Packed;
    hide FailedWrite;
    hide Blocked;
    var nr := file.nr;
    ghost var nodes1, dot := nodes[nr := Dir([])], Dirents.Rec(nr, Dot());
    StepNumber(fs, nodes, Create(nr, I_DIR), fs1);
    CreateAgrees(fs, nodes, nr, true, fs1);
    DirectoryNode(fs1, nodes1, nr);
    DotRecord(nr, parent);
    ghost var fs2;
    ret, fs2 := AddDirent(table, file, Dot(), nr, fs1, [], []);
    fs' := fs2;
    CmdWritten(fs1, nr, dot.Encode(), 0, ret, fs2);
    if ret < 0 {
      DotFails(fs1, nodes1, nr, dot.Encode(), fs2);
      return;
    }
    WriteAgrees(fs1, nodes1, nr, dot.Encode(), 0, fs2);
    ghost var data := Dirents.WriteBytes([], 0, dot.Encode());
    DirectoryNode(fs2, nodes1[nr := Dir(data)], nr);
    RoomLeft(table, fs2);
    DotDotFits(fs, nodes, nr, fs1, fs2, 11);
    ret, fs' := AddDirent(table, file, DotDot(), parent, fs2, data, [dot]);
    CmdWritten(fs2, nr, Dirents.Rec(parent, DotDot()).Encode(), 10, ret, fs');
  }

  /** "." could not be written, for no block was left; the new inode was removed again. */
  ghost predicate NoBlockForDot(w: World, nr: nat, fs': Fs) {
    exists fs1, fs2 ::
      Step(w.fs, Create(nr, I_DIR), fs1) && Room(fs1.sb) <= 0 &&
      Step(fs1, FailWrite(nr, Dirents.Rec(nr, Dot()).Encode(), 0, 0), fs2) && Step(fs2, Remove(nr), fs')
  }

  /** The entry could not be written, for the room was less than it needs; the new inode was removed again. */
  ghost predicate NoRoomForEntry(w: World, isDir: bool, name: seq<Byte>, nr: nat, clean: bool, fs': Fs)
    requires w.cur in w.tree.recs && 0 <= w.cur
  {
    var rec, at := Dirents.Rec(nr, name), EntryAt(w, name);
    exists fs1, fs2 ::
      Commands.Made(w.fs, nr, w.cur, isDir, fs1) && w.cur < |fs1.inodes| == |fs1.owns| && Room(fs1.sb) >= 0 &&
      Blocked(fs1.Of(w.cur), at / BLOCK_SIZE, LastBlock(at, rec.Size())) &&
      FailedWrite(fs1, w.cur, rec.Encode(), at, fs2) && (clean <==> FailsCleanly(fs1, w.cur, rec.Size(), at)) &&
      Step(fs2, Remove(nr), fs')
  }

  /** The records of the current directory have room for one more name. */
  ghost predicate HasSpace(w: World, name: seq<Byte>) {
    Dirents.IsName(name) && w.cur in w.nodes && w.nodes[w.cur].Dir? &&
    |w.nodes[w.cur].data| + |name| + 9 < MAX_TRANSFER
  }

  /** The inode of a new file or directory is there, and its entry is to be written. */
  ghost predicate Entering(w: World, isDir: bool, name: seq<Byte>, nr: nat, node: Node, fs1: Fs) {
    w.Ok() && HasSpace(w, name) && name !in Dirents.Names(w.tree.recs[w.cur]) && 0 <= w.cur && nr < NR_INODES &&
    nr != w.cur && nr !in w.fs.bits && Commands.Made(w.fs, nr, w.cur, isDir, fs1) &&
    Agrees(fs1, w.nodes[nr := node]) && Room(fs1.sb) >= 0
  }

  ghost predicate Entered(w: World, name: seq<Byte>, nr: nat, fs1: Fs, fs': Fs)
    requires w.cur in w.tree.recs && 0 <= w.cur
  {
    Step(fs1, Write(w.cur, Dirents.Rec(nr, name).Encode(), EntryAt(w, name)), fs')
  }

  ghost predicate NotEntered(w: World, isDir: bool, name: seq<Byte>, nr: nat, clean: bool, fs': Fs)
    requires w.cur in w.tree.recs && 0 <= w.cur
  {
    NoRoomForEntry(w, isDir, name, nr, clean, fs') && (clean ==> w.(fs := fs').Ok())
  }

  /** A creation that failed: what was left undone, and, unless the directory itself was damaged, a command that
      fails and leaves everything as it was */
  ghost predicate Undone(w: World, isDir: bool, name: seq<Byte>, nr: nat, clean: bool, w': World)
    requires w.Ok()
  {
    0 <= w.cur && w' == w.(fs := w'.fs) &&
    ((isDir && clean && NoBlockForDot(w, nr, w'.fs)) || NoRoomForEntry(w, isDir, name, nr, clean, w'.fs)) &&
    (clean ==> w'.Ok() && CommandStep(w, MakeFails(isDir, name, nr), w'))
  }

  lemma DotUndone(w: World, name: seq<Byte>, nr: nat, fs': Fs)
    requires w.Ok() && Dirents.IsName(name) && name !in Dirents.Names(w.tree.recs[w.cur]) && 0 <= w.cur
    requires NoBlockForDot(w, nr, fs')
    ensures Undone(w, true, name, nr, true, w.(fs := fs'))
  {
    hide Step;
    hide Agrees;
    hide Tree.Ok;
    hide Dirents.Names;
    hide Dirents.Rec.Encode;
    var fs1, fs2 :|
      Step(w.fs, Create(nr, I_DIR), fs1) && Room(fs1.sb) <= 0 &&
      Step(fs1, FailWrite(nr, Dirents.Rec(nr, Dot()).Encode(), 0, 0), fs2) && Step(fs2, Remove(nr), fs');
    assert FailedCreation(w, true, name, nr, fs');
    FailedCreationOk(w, true, name, nr, fs');
  }

  lemma EntryNotMade(w: World, isDir: bool, name: seq<Byte>, nr: nat, clean: bool, fs': Fs)
    requires w.Ok() && Dirents.IsName(name) && name !in Dirents.Names(w.tree.recs[w.cur]) && 0 <= w.cur
    requires NotEntered(w, isDir, name, nr, clean, fs')
    ensures Undone(w, isDir, name, nr, clean, w.(fs := fs'))
  {
    hide Step;
    hide Agrees;
    hide Tree.Ok;
    hide Dirents.Names;
    hide Dirents.Rec.Encode;
    hide Commands.Made;
    hide FailedWrite;
    hide FailsCleanly;
    hide Blocked;
    hide EntryAt;
  }

  lemma EntryMade(w: World, isDir: bool, name: seq<Byte>, nr: nat, fs1: Fs, fs': Fs) returns (w': World)
    requires w.Ok() && Dirents.IsName(name) && name !in Dirents.Names(w.tree.recs[w.cur]) && 0 <= w.cur
    requires Commands.Made(w.fs, nr, w.cur, isDir, fs1) && Entered(w, name, nr, fs1, fs')
    ensures w'.fs == fs' && w'.cur == w.cur && w'.Ok() && CommandStep(w, Make(isDir, name, nr), w')
  {
    hide Step;
    hide Agrees;
    hide Tree.Ok;
    hide Dirents.Names;
    hide Dirents.Rec.Encode;
    hide Commands.Made;
    hide Creation;
    hide EntryAt;
    w' := CreationDone(w, isDir, name, nr, fs1, fs');
    CreationOk(w, isDir, name, nr, w');
  }

  /** The bytes of every directory are fewer than a transfer can have. */
  ghost predicate Short(w: World) {
    forall nr :: nr in w.nodes && w.nodes[nr].Dir? ==> |w.nodes[nr].data| < MAX_TRANSFER
  }

  lemma NodeFacts(w: World, nr: nat)
    requires w.Ok() && nr in w.nodes
    ensures nr < NR_INODES == |w.fs.inodes| && nr in w.fs.bits && w.tree.Ok() && w.fs.Ok()
    ensures if nr in w.tree.recs
            then w.fs.inodes[nr].iType == I_DIR && w.nodes[nr].Dir? && IsDirectory(w.fs, nr, w.nodes[nr].data) &&
              Dirents.Packed(w.nodes[nr].data, w.tree.recs[nr])
            else w.fs.inodes[nr].iType == I_FILE && w.nodes[nr] == File && !w.tree.Occupied(nr)
  {
    assert NodeOk(w.fs, w.nodes, nr);
  }

  /** The entry of this name is live, at `at`, leads to this inode, and may be removed. */
  ghost predicate Removing(w: World, name: seq<Byte>, nr: nat, at: nat) {
    w.Ok() && Dirents.IsName(name) && name in Dirents.Names(w.tree.recs[w.cur]) && name != Dot() && name != DotDot() &&
    var recs, i := w.tree.recs[w.cur], Dirents.IndexOf(w.tree.recs[w.cur], name, 0);
    i < |recs| && recs[i].inodeNr == nr && at == Dirents.Start(recs, i) && !w.tree.Occupied(nr) && 0 <= w.cur &&
    w.cur in w.nodes && w.nodes[w.cur].Dir? && at + |name| + 9 <= |w.nodes[w.cur].data| < MAX_TRANSFER
  }

  lemma RemovingFacts(w: World, name: seq<Byte>, nr: nat, at: nat)
    requires Removing(w, name, nr, at)
    ensures 0 <= w.cur < NR_INODES && w.cur in w.fs.bits && w.fs.Ok() && nr < NR_INODES && nr != w.cur
    ensures 0 < |Tombstone(name)| < MAX_TRANSFER && at + |Tombstone(name)| < MAX_OFFSET
  {
    hide Dirents.Names;
    DirectoryInode(w);
    EntryNode(w, name);
  }

  /** An ordinary entry leads to an inode that is there, and to another one than its directory. */
  lemma EntryNode(w: World, name: seq<Byte>)
    requires w.Ok() && name in Dirents.Names(w.tree.recs[w.cur]) && name != Dot() && name != DotDot()
    ensures var nr := Dirents.Names(w.tree.recs[w.cur])[name]; 0 <= nr < NR_INODES && nr in w.nodes && nr != w.cur
    ensures var recs, i := w.tree.recs[w.cur], Dirents.IndexOf(w.tree.recs[w.cur], name, 0);
            i < |recs| && recs[i].inodeNr == Dirents.Names(recs)[name]
  {
    var recs, i := w.tree.recs[w.cur], Dirents.IndexOf(w.tree.recs[w.cur], name, 0);
    Dirents.LookupIsMap(recs, name);
    DotNames(w.tree, w.cur, name);
    EntryExists(w.tree, w.cur, i);
    assert w.tree.DirOk(w.cur) && w.tree.PlaceOk(recs[i].inodeNr);
    NodeNumber(w.fs, w.nodes, recs[i].inodeNr);
  }

  lemma AnyEntryNode(w: World, name: seq<Byte>)
    requires w.Ok() && name in Dirents.Names(w.tree.recs[w.cur])
    ensures var nr := Dirents.Names(w.tree.recs[w.cur])[name]; 0 <= nr < NR_INODES && nr in w.nodes
  {
    var recs, i := w.tree.recs[w.cur], Dirents.IndexOf(w.tree.recs[w.cur], name, 0);
    Dirents.LookupIsMap(recs, name);
    EntryExists(w.tree, w.cur, i);
    NodeNumber(w.fs, w.nodes, recs[i].inodeNr);
  }

  lemma TombstoneWritten(w: World, name: seq<Byte>, nr: nat, at: nat, ret: int, fs1: Fs)
    requires Removing(w, name, nr, at) && CmdWrite(w.fs, w.cur, Tombstone(name), at, ret, fs1) && Room(w.fs.sb) >= 0
    ensures Step(w.fs, Write(w.cur, Tombstone(name), at), fs1) && fs1.Ok() && Removable(fs1, nr)
  {
    hide Agrees;
    hide Tree.Ok;
    hide Step;
    hide FailedWrite;
    hide Dirents.Names;
    DirectoryInode(w);
    EntryNode(w, name);
    CmdWritten(w.fs, w.cur, Tombstone(name), at, ret, fs1);
    TombstoneFits(w, name, fs1);
    hide Fs.Ok;
    StepKeepsOk(w.fs, Write(w.cur, Tombstone(name), at), fs1);
    NodeNumber(w.fs, w.nodes, nr);
    WriteBits(w.fs, Write(w.cur, Tombstone(name), at), fs1);
    OkRemovable(fs1, nr);
  }

  lemma WriteBits(fs: Fs, op: Op, fs': Fs)
    requires Step(fs, op, fs') && op.Write?
    ensures fs'.bits == fs.bits
  {
  }

  lemma EntryRemoved(w: World, name: seq<Byte>, nr: nat, at: nat, fs1: Fs, fs2: Fs) returns (w': World)
    requires Removing(w, name, nr, at)
    requires Step(w.fs, Write(w.cur, Tombstone(name), at), fs1) && Step(fs1, Remove(nr), fs2)
    ensures w'.fs == fs2 && w'.cur == w.cur && w'.Ok() && CommandStep(w, Command.Rm(name), w')
  {
    hide Agrees;
    hide Tree.Ok;
    hide Step;
    hide Dirents.Names;
    hide Shows;
    hide Tree.Occupied;
    w' := RemovalDone(w, name, fs1, fs2);
    RemovalOk(w, name, w');
  }

  /** What cmd_write reports of a file, and what it makes of it */
  ghost predicate FileWritten(w: World, nr: nat, buf: seq<Byte>, start: nat, ret: int, w': World)
    requires w.Ok()
  {
    nr < |w.fs.inodes| == |w.fs.owns| && w' == w.(fs := w'.fs) && CmdWrite(w.fs, nr, buf, start, ret, w'.fs) &&
    (ret >= 0 ==> w'.Ok() && CommandStep(w, WriteFile(Write(nr, buf, start)), w')) &&
    (ret < 0 ==>
       var k := StopOf(w.fs.Of(nr), |buf|, start);
       KeepsOrder(w.fs.Of(nr), |buf|, start, k) ==>
         w'.Ok() && CommandStep(w, WriteFile(FailWrite(nr, buf, start, k)), w'))
  }

  lemma WroteFile(w: World, nr: nat, buf: seq<Byte>, start: nat, ret: int, fs': Fs)
    requires w.Ok() && nr in w.nodes && w.nodes[nr] == File && |buf| > 0 && CmdWrite(w.fs, nr, buf, start, ret, fs')
    ensures FileWritten(w, nr, buf, start, ret, w.(fs := fs'))
  {
    hide Agrees;
    hide Tree.Ok;
    hide Shows;
    hide Stopped;
    hide StopOf;
    hide KeepsOrder;
    hide WriteDone;
    hide Becomes;
    var w' := w.(fs := fs');
    NodeFacts(w, nr);
    hide Fs.Ok;
    if ret >= 0 {
      CommandKeepsOk(w, WriteFile(Write(nr, buf, start)), w');
    } else if KeepsOrder(w.fs.Of(nr), |buf|, start, StopOf(w.fs.Of(nr), |buf|, start)) {
      CommandKeepsOk(w, WriteFile(FailWrite(nr, buf, start, StopOf(w.fs.Of(nr), |buf|, start))), w');
    }
  }

  lemma FileNode(w: World, name: seq<Byte>)
    requires w.Ok() && name in Dirents.Names(w.tree.recs[w.cur]) &&
             Dirents.Names(w.tree.recs[w.cur])[name] !in w.tree.recs
    ensures var nr := Dirents.Names(w.tree.recs[w.cur])[name];
            0 <= nr < NR_INODES && nr in w.nodes && w.nodes[nr] == File && nr in w.fs.bits
  {
    AnyEntryNode(w, name);
    NodeFacts(w, Dirents.Names(w.tree.recs[w.cur])[name]);
  }

  lemma OneInode(table: InodeTable, file: Inode)
    requires table.cached == map[file.nr := file]
    ensures table.cached.Values == {file}
  {
    assert file.nr in table.cached && table.cached[file.nr] == file;
  }

  /** After a failed write, every other inode can still be removed. */
  lemma OtherRemovable(fs: Fs, nr: nat, buf: seq<Byte>, start: nat, fs': Fs, m: nat)
    requires fs.Ok() && nr < NR_INODES && FailedWrite(fs, nr, buf, start, fs') && m in fs.bits && m != nr
    ensures Removable(fs', m)
  {
    assert fs.Good(m);
    FailedWriteHarmless(fs, nr, buf, start, fs', m);
    hide Fs.Ok;
    hide State.Sound;
    hide Filled;
    hide Stopped;
  }

  lemma EntryFailed(w: World, isDir: bool, name: seq<Byte>, nr: nat, fs1: Fs, node: Node, ret: int, fs2: Fs)
    requires Entering(w, isDir, name, nr, node, fs1) && ret < 0
    requires w.cur in w.tree.recs && 0 <= w.cur < |fs1.inodes| == |fs1.owns|
    requires CmdWrite(fs1, w.cur, Dirents.Rec(nr, name).Encode(), EntryAt(w, name), ret, fs2)
    ensures Removable(fs2, nr)
    ensures forall fs3 :: Step(fs2, Remove(nr), fs3) ==>
              var clean := FailsCleanly(fs1, w.cur, Dirents.Rec(nr, name).Size(), EntryAt(w, name));
              NotEntered(w, isDir, name, nr, clean, fs3)
  {
    hide Step;
    hide Tree.Ok;
    hide Shows;
    hide Dirents.Rec.Encode;
    hide Fs.Ok;
    hide FailedWrite;
    hide Blocked;
    hide FailsCleanly;
    hide Commands.Made;
    hide NodeOk;
    hide CmdWrite;
    DirectoryInode(w);
    assert nr !in w.nodes;
    var rec, at := Dirents.Rec(nr, name), EntryAt(w, name);
    CmdWritten(fs1, w.cur, rec.Encode(), at, ret, fs2);
    EntryUndone(w, isDir, name, nr, fs1, node, fs2);
    assert nr in fs1.bits;
    NodeNumber(fs1, w.nodes[nr := node], w.cur);
    OtherRemovable(fs1, w.cur, rec.Encode(), at, fs2, nr);
  }

  lemma EntryDone(w: World, name: seq<Byte>, nr: nat, fs1: Fs, ret: int, fs2: Fs)
    requires w.cur in w.tree.recs && 0 <= w.cur && ret >= 0
    requires CmdWrite(fs1, w.cur, Dirents.Rec(nr, name).Encode(), EntryAt(w, name), ret, fs2)
    ensures Step(fs1, Write(w.cur, Dirents.Rec(nr, name).Encode(), EntryAt(w, name)), fs2)
    ensures forall fs3 :: Step(fs1, Write(w.cur, Dirents.Rec(nr, name).Encode(), EntryAt(w, name)), fs3) ==>
              Entered(w, name, nr, fs1, fs3)
  {
    hide Step;
  }

  lemma EnteringFacts(w: World, isDir: bool, name: seq<Byte>, nr: nat, node: Node, fs1: Fs)
    requires Entering(w, isDir, name, nr, node, fs1)
    ensures w.cur in w.tree.recs && w.cur in w.nodes && w.nodes[w.cur].Dir? && IsS32(nr) && fs1.Ok()
    ensures 0 <= w.cur < |fs1.inodes| == |fs1.owns| && IsDirectory(fs1, w.cur, w.nodes[w.cur].data)
    ensures Dirents.Packed(w.nodes[w.cur].data, w.tree.recs[w.cur]) && HasSpace(w, name)
    ensures var recs, i := w.tree.recs[w.cur], Dirents.StopOf(w.tree.recs[w.cur], name, 0);
            EntryAt(w, name) == Dirents.Start(recs, i) && (i < |recs| ==> !recs[i].Live())
  {
    hide Agrees;
    hide Tree.Ok;
    hide Fs.Ok;
    hide IsDirectory;
    hide Commands.Made;
    hide Dirents.Packed;
    DirectoryInode(w);
    NodeNumber(fs1, w.nodes[nr := node], nr);
    NewEntry(w.tree.recs[w.cur], name);
    DirectoryNode(fs1, w.nodes[nr := node], w.cur);
    NodeNumber(fs1, w.nodes[nr := node], w.cur);
  }

  lemma NewEntry(recs: seq<Dirents.Rec>, name: seq<Byte>)
    requires name !in Dirents.Names(recs)
    ensures var i := Dirents.StopOf(recs, name, 0); i < |recs| ==> !recs[i].Live()
  {
    Dirents.LookupIsMap(recs, name);
  }

  lemma DirectoryInode(w: World)
    requires w.Ok()
    ensures w.cur in w.nodes && w.nodes[w.cur].Dir? && Agrees(w.fs, w.nodes) && w.fs.Ok() && w.tree.Ok()
    ensures w.cur in w.tree.recs && Dirents.Packed(w.nodes[w.cur].data, w.tree.recs[w.cur])
    ensures 0 <= w.cur < NR_INODES && IsS32(w.cur) && w.cur in w.fs.bits
    ensures IsDirectory(w.fs, w.cur, w.nodes[w.cur].data)
  {
    assert NodeOk(w.fs, w.nodes, w.cur);
  }

  lemma FileMade(fs: Fs, nr: nat, parent: int, fs1: Fs)
    ensures Step(fs, Create(nr, I_FILE), fs1) ==> Commands.Made(fs, nr, parent, false, fs1)
  {
  }

  lemma DotNotWritten(w: World, nr: nat, fs1: Fs, fs2: Fs)
    requires Step(w.fs, Create(nr, I_DIR), fs1) && Room(fs1.sb) <= 0 &&
             Step(fs1, FailWrite(nr, Dirents.Rec(nr, Dot()).Encode(), 0, 0), fs2)
    ensures forall fs3 :: Step(fs2, Remove(nr), fs3) ==> NoBlockForDot(w, nr, fs3)
  {
    hide Step;
  }

  lemma NumberWasFree(fs: Fs, nr: nat, iType: int, fs': Fs)
    requires Step(fs, Create(nr, iType), fs')
    ensures nr !in fs.bits
  {
  }

  lemma StepRemovable(fs: Fs, op: Op, fs': Fs)
    requires fs.Ok() && Step(fs, op, fs') && (op.Write? || op.FailWrite?)
    ensures fs'.Ok() && Removable(fs', op.nr)
  {
    StepKeepsOk(fs, op, fs');
  }

  class Shell {
    const table: InodeTable
    /** c->cur_dir */
    var cur: Inode
    ghost var w: World

    /** Memory and device show the file system; one inode is in memory, that of the current directory, and referenced
        once. */
    ghost predicate Shown()
      reads this, table, table.cached.Values, table.sb, table.sb.inodeFreemap, table.sb.blockFreemap,
            table.sb.inodeFreemap.v, table.sb.blockFreemap.v
    {
      table.Shows(w.fs) && cur.nr == w.cur && Only(cur)
    }

    ghost predicate Only(file: Inode)
      reads table
    {
      table.cached == map[file.nr := file] && table.refs == multiset{file.nr}
    }

    /** One more reference was handed out, be it to a second inode or to the same. */
    ghost predicate Both(file: Inode)
      reads this`cur, table
    {
      table.cached == map[cur.nr := cur, file.nr := file] && table.refs == multiset{cur.nr, file.nr} &&
      (file.nr == cur.nr ==> file == cur)
    }

    ghost predicate Valid()
      reads this, table, table.cached.Values, table.sb, table.sb.inodeFreemap, table.sb.blockFreemap,
            table.sb.inodeFreemap.v, table.sb.blockFreemap.v
    {
      Shown() && w.Ok()
    }

    /** main, once the inode of the root is there */
    constructor (table: InodeTable, cur: Inode, ghost w: World)
      requires table.Shows(w.fs) && w.Ok() && cur.nr == w.cur
      requires table.cached == map[cur.nr := cur] && table.refs == multiset{cur.nr}
      ensures Valid() && this.table == table && this.cur == cur && this.w == w
    {
      this.table, this.cur, this.w := table, cur, w;
    }

    /** testfs_remove_inode of the inode that was got beside that of the current directory */
    method Discard(file: Inode, ghost fs: Fs) returns (ghost fs': Fs)
      requires table.Shows(fs) && Removable(fs, file.nr) && Both(file) && file.nr != cur.nr
      modifies table, file, table.sb, table.sb.inodeFreemap, table.sb.inodeFreemap.v, table.sb.blockFreemap,
               table.sb.blockFreemap.v
      ensures table.Shows(fs') && Step(fs, Remove(file.nr), fs') && Only(cur)
    {
      hide InodeTable.Shows;
      hide Removable;
      hide Step;
      fs' := table.RemoveInode(file, fs);
      assert multiset{cur.nr, file.nr} - multiset{file.nr} == multiset{cur.nr};
      assert map[cur.nr := cur, file.nr := file] - {file.nr} == map[cur.nr := cur];
    }

    /** testfs_create_inode, and testfs_create_empty_dir if this is to be a directory */
    method NewInode(isDir: bool) returns (ret: int, file: Inode?, ghost nr: nat, ghost fs': Fs)
      requires Valid()
      modifies table, cur, table.sb, table.sb.inodeFreemap, table.sb.inodeFreemap.v, table.sb.blockFreemap,
               table.sb.blockFreemap.v
      ensures table.Shows(fs')
      ensures Full(w.fs.bits, NR_INODES) ==> ret == -ENOSPC && fs' == w.fs && Only(cur)
      ensures !Full(w.fs.bits, NR_INODES) ==> nr < NR_INODES && nr !in w.fs.bits && Full(w.fs.bits, nr)
      ensures !Full(w.fs.bits, NR_INODES) && ret < 0 ==> Only(cur) && isDir && NoBlockForDot(w, nr, fs')
      ensures ret >= 0 ==>
                file != null && fresh(file) && file.nr == nr != cur.nr && !Full(w.fs.bits, NR_INODES) &&
                Both(file) &&
                Commands.Made(w.fs, nr, w.cur, isDir, fs')
    {
      hide InodeTable.Shows;
      hide Agrees;
      hide Step;
      hide Tree.Ok;
      hide Shows;
      hide Dirents.Rec.Encode;
      hide Fs.Ok;
      hide World.Ok;
      hide NoBlockForDot;
      hide Commands.Made;
      DirectoryInode(w);
      OneInode(table, cur);
      ghost var fs1;
      nr := 0;
      ret, file, fs1 := table.CreateInode(if isDir then I_DIR else I_FILE, w.fs);
      fs' := fs1;
      if ret < 0 {
        return;
      }
      nr := file.nr;
      StepNumber(w.fs, w.nodes, Create(nr, if isDir then I_DIR else I_FILE), fs1);
      NumberWasFree(w.fs, nr, if isDir then I_DIR else I_FILE, fs1);
      FileMade(w.fs, nr, w.cur, fs1);
      if isDir {
        ret, fs' := CreateEmptyDir(table, file, cur.nr, w.fs, w.nodes, fs1);
        if ret < 0 {
          ghost var fs2 := fs';
          StepKeepsOk(w.fs, Create(nr, I_DIR), fs1);
          DotNotWritten(w, nr, fs1, fs2);
          StepRemovable(fs1, FailWrite(nr, Dirents.Rec(nr, Dot()).Encode(), 0, 0), fs2);
          fs' := Discard(file, fs2);
        }
      }
    }

    /** testfs_create_file_or_dir, once the inode is there: the entry, or the removal of the inode */
    method Enter(file: Inode, isDir: bool, name: seq<Byte>, ghost node: Node, ghost fs1: Fs)
      returns (ret: int, ghost clean: bool, ghost fs': Fs)
      requires w.cur in w.tree.recs && 0 <= w.cur && Entering(w, isDir, name, file.nr, node, fs1)
      requires table.Shows(fs1) && cur.nr == w.cur && file.nr != cur.nr
      requires Both(file)
      modifies table, cur, file, table.sb, table.sb.inodeFreemap, table.sb.inodeFreemap.v, table.sb.blockFreemap,
               table.sb.blockFreemap.v
      ensures table.Shows(fs') && Only(cur)
      ensures ret >= 0 ==> Entered(w, name, file.nr, fs1, fs') && !cur.dirty
      ensures ret < 0 ==> NotEntered(w, isDir, name, file.nr, clean, fs')
    {
      hide InodeTable.Shows;
      hide Entering;
      hide Entered;
      hide NotEntered;
      hide Removable;
      hide Step;
      hide Dirents.Rec.Encode;
      hide Dirents.Packed;
      hide Fs.Ok;
      hide CmdWrite;
      hide IsDirectory;
      ghost var recs, d, at := w.tree.recs[w.cur], Dirents.Rec(file.nr, name), EntryAt(w, name);
      ghost var fs2;
      EnteringFacts(w, isDir, name, file.nr, node, fs1);
      ret, fs2 := AddDirent(table, cur, name, file.nr, fs1, w.nodes[w.cur].data, recs);
      clean := FailsCleanly(fs1, w.cur, d.Size(), at);
      if ret < 0 {
        EntryFailed(w, isDir, name, file.nr, fs1, node, ret, fs2);
        fs' := Discard(file, fs2);
        return;
      }
      EntryDone(w, name, file.nr, fs1, ret, fs2);
      fs' := Finish(file, Write(w.cur, d.Encode(), at), fs1, fs2);
    }

    /** testfs_sync_inode of the directory and of the new inode, and testfs_put_inode */
    method Finish(file: Inode, ghost op: Op, ghost fs1: Fs, ghost fs2: Fs) returns (ghost fs': Fs)
      requires fs1.Ok() && Step(fs1, op, fs2)
      requires table.Shows(fs2) && file.nr != cur.nr && Both(file)
      modifies table, cur, file, table.sb
      ensures table.Shows(fs') && Only(cur) && Step(fs1, op, fs') && !cur.dirty
    {
      hide InodeTable.Shows;
      hide Step;
      hide Fs.Ok;
      StepKeepsOk(fs1, op, fs2);
      ghost var fs3 := table.SyncHeld(cur, fs2);
      StepSynced(fs1, op, fs2, fs3);
      StepKeepsOk(fs1, op, fs3);
      fs' := table.SyncHeld(file, fs3);
      StepSynced(fs1, op, fs3, fs');
      Put(file, fs');
    }

    /** testfs_put_inode of the inode that was got beside that of the current directory */
    method Put(file: Inode, ghost fs: Fs)
      requires table.Shows(fs) && Both(file) && !file.dirty
      modifies table, file`count
      ensures table.Shows(fs) && Only(cur)
    {
      PutOne(file, cur, fs);
    }

    /** testfs_put_inode, with `other` as the inode that stays */
    method PutOne(file: Inode, ghost other: Inode, ghost fs: Fs)
      requires table.Shows(fs) && !file.dirty && (file.nr == other.nr ==> file == other)
      requires table.cached == map[other.nr := other, file.nr := file] &&
               table.refs == multiset{other.nr, file.nr}
      modifies table, file`count
      ensures table.Shows(fs) && Only(other)
    {
      hide InodeTable.Hashed;
      hide InodeAt;
      table.ShowsParts(fs);
      hide InodeTable.Shows;
      hide InodeTable.Coherent;
      hide InodeTable.Lookup;
      hide SuperBlock.Valid;
      table.PutInode(file);
      table.ShowsAll(fs);
      assert multiset{other.nr, file.nr} - multiset{file.nr} == multiset{other.nr};
      assert file.nr != other.nr ==> map[other.nr := other, file.nr := file] - {file.nr} == map[other.nr := other];
      assert file.nr == other.nr ==> map[other.nr := other, file.nr := file] == map[other.nr := other];
    }

    /** testfs_dir_name_to_inode_nr, in the current directory */
    method NameToInodeNr(name: seq<Byte>) returns (ret: int)
      requires Valid() && Dirents.IsName(name) && w.cur in w.nodes && w.nodes[w.cur].Dir? &&
               |w.nodes[w.cur].data| < MAX_TRANSFER
      ensures w.cur in w.tree.recs
      ensures var names := Dirents.Names(w.tree.recs[w.cur]);
              if name in names then ret == names[name] && 0 <= ret < NR_INODES && ret in w.nodes
              else ret == -Dirents.ENOENT
    {
      hide InodeTable.Shows;
      hide Agrees;
      hide Tree.Ok;
      hide Dirents.Packed;
      hide Dirents.Names;
      hide Fs.Ok;
      hide IsDirectory;
      DirectoryInode(w);
      ghost var recs := w.tree.recs[w.cur];
      var data := ReadBytes(table, cur, w.fs, w.nodes[w.cur].data);
      Dirents.LookupIsMap(recs, name);
      ret := Dirents.NameToInodeNr(data, name, recs);
      if ret >= 0 {
        AnyEntryNode(w, name);
      }
    }

    /** testfs_create_file_or_dir, of a name that is not there yet */
    method CreateNew(isDir: bool, name: seq<Byte>) returns (ret: int, ghost nr: nat, ghost clean: bool)
      requires Valid() && HasSpace(w, name) && name !in Dirents.Names(w.tree.recs[w.cur])
      modifies this`w, table, cur, table.sb, table.sb.inodeFreemap, table.sb.inodeFreemap.v, table.sb.blockFreemap,
               table.sb.blockFreemap.v
      ensures Shown()
      ensures Full(old(w).fs.bits, NR_INODES) ==> ret == -ENOSPC && w == old(w)
      ensures !Full(old(w).fs.bits, NR_INODES) ==>
                nr < NR_INODES && nr !in old(w).fs.bits && Full(old(w).fs.bits, nr) &&
                if ret >= 0 then ret == 0 && w.Ok() && CommandStep(old(w), Make(isDir, name, nr), w) && !cur.dirty
                else Undone(old(w), isDir, name, nr, clean, w)
    {
      hide InodeTable.Shows;
      hide Agrees;
      hide Tree.Ok;
      hide Shows;
      hide Dirents.Packed;
      hide Fs.Ok;
      hide IsDirectory;
      hide NoBlockForDot;
      hide NotEntered;
      hide Entered;
      hide Undone;
      hide CommandStep;
      hide Dirents.Names;
      hide Commands.Made;
      hide NewNode;
      clean := true;
      DirectoryInode(w);
      var file;
      ghost var fs1, fs';
      ret, file, nr, fs1 := NewInode(isDir);
      if ret < 0 {
        if !Full(w.fs.bits, NR_INODES) {
          DotUndone(w, name, nr, fs1);
        }
        w := w.(fs := fs1);
        return;
      }
      ghost var node := MadeAgrees(w.fs, w.nodes, nr, w.cur, isDir, fs1);
      RoomLeft(table, fs1);
      ret, clean, fs' := Enter(file, isDir, name, node, fs1);
      if ret < 0 {
        EntryNotMade(w, isDir, name, nr, clean, fs');
        w := w.(fs := fs');
        return;
      }
      w := EntryMade(w, isDir, name, nr, fs1, fs');
      ret := 0;
    }

    /** testfs_create_file_or_dir in the current directory: cmd_create and cmd_mkdir */
    method CreateFileOrDir(isDir: bool, name: seq<Byte>) returns (ret: int, ghost nr: nat, ghost clean: bool)
      requires Valid() && HasSpace(w, name)
      modifies this`w, table, cur, table.sb, table.sb.inodeFreemap, table.sb.inodeFreemap.v, table.sb.blockFreemap,
               table.sb.blockFreemap.v
      ensures Shown()
      ensures if name in Dirents.Names(old(w).tree.recs[old(w).cur]) then ret == -Dirents.EEXIST && w == old(w)
              else if Full(old(w).fs.bits, NR_INODES) then ret == -ENOSPC && w == old(w)
              else
                nr < NR_INODES && nr !in old(w).fs.bits && Full(old(w).fs.bits, nr) &&
                if ret >= 0 then ret == 0 && w.Ok() && CommandStep(old(w), Make(isDir, name, nr), w) && !cur.dirty
                else Undone(old(w), isDir, name, nr, clean, w)
    {
      hide InodeTable.Shows;
      hide Agrees;
      hide Tree.Ok;
      hide Shows;
      hide Dirents.Packed;
      hide Fs.Ok;
      hide IsDirectory;
      hide Undone;
      hide CommandStep;
      hide Dirents.Names;
      clean, nr := true, 0;
      DirectoryInode(w);
      ret := NameToInodeNr(name);
      if ret >= 0 {
        return -Dirents.EEXIST, nr, clean;
      }
      ret, nr, clean := CreateNew(isDir, name);
    }

    /** testfs_get_inode */
    method Get(nr: nat, ghost fs: Fs) returns (file: Inode)
      requires table.Shows(fs) && fs.Ok() && Only(cur) && nr < NR_INODES
      modifies table, cur`count
      ensures table.Shows(fs) && Both(file) && file.nr == nr && file.din == fs.inodes[nr]
      ensures nr != cur.nr ==> fresh(file) && !file.dirty
    {
      hide InodeTable.Hashed;
      hide InodeAt;
      hide Fs.Ok;
      table.ShowsParts(fs);
      hide InodeTable.Shows;
      hide InodeTable.Coherent;
      hide InodeTable.Lookup;
      hide SuperBlock.Valid;
      OneInode(table, cur);
      file := table.GetInode(nr);
      table.ShowsAll(fs);
    }

    /** testfs_remove_dirent_allowed */
    method RemoveDirentAllowed(nr: nat) returns (ret: int)
      requires Valid() && Short(w) && nr in w.nodes && nr != w.cur
      modifies table, cur`count
      ensures Valid() && ret == if w.tree.Occupied(nr) then -ENOTEMPTY else 0
    {
      hide InodeTable.Shows;
      hide Agrees;
      hide Tree.Ok;
      hide Dirents.Packed;
      hide Fs.Ok;
      hide IsDirectory;
      hide Tree.Occupied;
      NodeFacts(w, nr);
      var file := Get(nr, w.fs);
      ret := 0;
      if file.din.iType == I_DIR {
        var data := ReadBytes(table, file, w.fs, w.nodes[nr].data);
        ret := Namespace.AnyEntry(data, w.tree, nr);
      }
      Put(file, w.fs);
    }

    /** cmd_rm */
    method Rm(name: seq<Byte>) returns (ret: int)
      requires Valid() && Short(w) && Dirents.IsName(name)
      modifies this`w, table, cur, table.sb, table.sb.inodeFreemap, table.sb.inodeFreemap.v, table.sb.blockFreemap,
               table.sb.blockFreemap.v
      ensures Valid()
      ensures var names := Dirents.Names(old(w).tree.recs[old(w).cur]);
              if name == Dot() || name == DotDot() then ret == -EINVAL && w == old(w)
              else if name !in names then ret == -Dirents.ENOENT && w == old(w)
              else if old(w).tree.Occupied(names[name]) then ret == -ENOTEMPTY && w == old(w)
              else ret == 0 && CommandStep(old(w), Command.Rm(name), w) && !cur.dirty
    {
      hide InodeTable.Shows;
      hide Agrees;
      hide Tree.Ok;
      hide Shows;
      hide Dirents.Packed;
      hide Dirents.Names;
      hide Fs.Ok;
      hide IsDirectory;
      hide Tree.Occupied;
      hide CommandStep;
      if name == Dot() || name == DotDot() {
        return -EINVAL;
      }
      DirectoryInode(w);
      ghost var recs := w.tree.recs[w.cur];
      var data := ReadBytes(table, cur, w.fs, w.nodes[w.cur].data);
      Dirents.LookupIsMap(recs, name);
      var inodeNr, at := Namespace.FindEntry(data, name, recs);
      if inodeNr < 0 {
        return -Dirents.ENOENT;
      }
      EntryNode(w, name);
      ret := RemoveDirentAllowed(inodeNr);
      if ret < 0 {
        return;
      }
      RemoveEntry(name, inodeNr, at);
    }

    /** cmd_rm, the last part: testfs_get_inode, testfs_remove_inode, testfs_sync_inode of the directory */
    method DropInode(nr: nat, ghost fs: Fs) returns (ghost fs': Fs)
      requires table.Shows(fs) && fs.Ok() && Removable(fs, nr) && Only(cur) && nr < NR_INODES && nr != cur.nr
      modifies table, cur, table.sb, table.sb.inodeFreemap, table.sb.inodeFreemap.v, table.sb.blockFreemap,
               table.sb.blockFreemap.v
      ensures table.Shows(fs') && Step(fs, Remove(nr), fs') && Only(cur) && !cur.dirty
    {
      hide InodeTable.Shows;
      hide Fs.Ok;
      hide Removable;
      hide Step;
      var file := Get(nr, fs);
      ghost var fs2 := Discard(file, fs);
      StepKeepsOk(fs, Remove(nr), fs2);
      fs' := table.SyncHeld(cur, fs2);
      StepSynced(fs, Remove(nr), fs2, fs');
    }

    /** testfs_remove_dirent and cmd_rm, once the entry is found and may go */
    method RemoveEntry(name: seq<Byte>, inodeNr: nat, at: nat)
      requires Valid() && Removing(w, name, inodeNr, at)
      modifies this`w, table, cur, table.sb, table.sb.inodeFreemap, table.sb.inodeFreemap.v, table.sb.blockFreemap,
               table.sb.blockFreemap.v
      ensures Valid() && CommandStep(old(w), Command.Rm(name), w) && !cur.dirty
    {
      hide InodeTable.Shows;
      hide World.Ok;
      hide Removing;
      hide Fs.Ok;
      hide Step;
      hide CmdWrite;
      hide CommandStep;
      ghost var fs1, fs2;
      var ret;
      RemovingFacts(w, name, inodeNr, at);
      RoomLeft(table, w.fs);
      ret, fs1 := table.WriteHeld(cur, Tombstone(name), at, w.fs);
      TombstoneWritten(w, name, inodeNr, at, ret, fs1);
      fs2 := DropInode(inodeNr, fs1);
      w := EntryRemoved(w, name, inodeNr, at, fs1, fs2);
    }

    /** cmd_cd; if the inode of the current directory is still dirty, the assertion of testfs_put_inode stops the
        program. */
    method Cd(name: seq<Byte>) returns (ret: int, aborted: bool)
      requires Valid() && Short(w) && Dirents.IsName(name)
      modifies this`cur, this`w, table, cur`count
      ensures !aborted ==> Valid()
      ensures var names := Dirents.Names(old(w).tree.recs[old(w).cur]);
              if name !in names then !aborted && ret == -Dirents.ENOENT && w == old(w) && cur == old(cur)
              else if names[name] !in old(w).tree.recs then
                !aborted && ret == -ENOTDIR && w == old(w) && cur == old(cur)
              else if old(cur.dirty) then aborted
              else !aborted && ret == 0 && CommandStep(old(w), Command.Cd(name), w) && !cur.dirty
    {
      hide InodeTable.Shows;
      hide Agrees;
      hide Tree.Ok;
      hide Dirents.Packed;
      hide Dirents.Names;
      hide Fs.Ok;
      hide IsDirectory;
      hide World.Ok;
      aborted := false;
      DirectoryInode(w);
      ret := NameToInodeNr(name);
      if ret < 0 {
        return;
      }
      NodeFacts(w, ret);
      var file := Get(ret, w.fs);
      if file.din.iType != I_DIR {
        Put(file, w.fs);
        return -ENOTDIR, aborted;
      }
      if cur.dirty {
        aborted := true;
        return;
      }
      ChangeTo(file);
      ret := 0;
    }

    /** cmd_cd, the last part: testfs_put_inode of the directory that is left */
    method ChangeTo(file: Inode)
      requires table.Shows(w.fs) && cur.nr == w.cur && w.Ok() && Both(file) && !cur.dirty && file.nr in w.tree.recs
      modifies this`cur, this`w, table, cur`count
      ensures Valid() && cur == file && w == old(w).(cur := file.nr)
    {
      hide InodeTable.Shows;
      hide Agrees;
      hide Tree.Ok;
      hide Shows;
      PutOne(cur, file, w.fs);
      cur, w := file, w.(cur := file.nr);
    }

    /** testfs_get_file_inode: the inode of a file in the current directory; if the name leads to the directory itself,
        and its inode is still dirty, the assertion of testfs_put_inode stops the program. */
    method GetFile(name: seq<Byte>) returns (ret: int, file: Inode?, aborted: bool)
      requires Valid() && Short(w) && Dirents.IsName(name)
      modifies table, cur`count
      ensures w.cur in w.tree.recs
      ensures var names := Dirents.Names(w.tree.recs[w.cur]);
              if name !in names then !aborted && ret == -Dirents.ENOENT && Valid()
              else if names[name] in w.tree.recs then
                (aborted <==> names[name] == w.cur && cur.dirty) && (!aborted ==> ret == -EISDIR && Valid())
              else
                !aborted && ret == 0 && file != null && fresh(file) && file.nr == names[name] != cur.nr &&
                table.Shows(w.fs) && Both(file)
    {
      hide InodeTable.Shows;
      hide Agrees;
      hide Tree.Ok;
      hide Dirents.Packed;
      hide Dirents.Names;
      hide Fs.Ok;
      hide IsDirectory;
      hide World.Ok;
      aborted, file := false, null;
      DirectoryInode(w);
      ret := NameToInodeNr(name);
      if ret < 0 {
        return;
      }
      NodeFacts(w, ret);
      file := Get(ret, w.fs);
      if file.din.iType == I_DIR {
        if file.dirty {
          aborted := true;
          return;
        }
        Put(file, w.fs);
        return -EISDIR, null, aborted;
      }
      ret := 0;
    }

    /** cmd_write */
    method WriteFile(name: seq<Byte>, buf: seq<Byte>, start: nat) returns (ret: int, aborted: bool)
      requires Valid() && Short(w) && Dirents.IsName(name) && 0 < |buf| < MAX_TRANSFER && start + |buf| < MAX_OFFSET
      modifies this`w, table, cur`count, table.sb, table.sb.blockFreemap, table.sb.blockFreemap.v
      ensures !aborted ==> Shown()
      ensures var names := Dirents.Names(old(w).tree.recs[old(w).cur]);
              if name !in names then !aborted && ret == -Dirents.ENOENT && w == old(w)
              else if names[name] in old(w).tree.recs then
                (aborted <==> names[name] == old(w).cur && old(cur.dirty)) &&
                (!aborted ==> ret == -EISDIR && w == old(w))
              else !aborted && names[name] >= 0 && FileWritten(old(w), names[name], buf, start, ret, w)
    {
      hide InodeTable.Shows;
      hide Agrees;
      hide Tree.Ok;
      hide Dirents.Names;
      hide Fs.Ok;
      hide CmdWrite;
      hide FileWritten;
      DirectoryInode(w);
      var file;
      ret, file, aborted := GetFile(name);
      if aborted || ret < 0 {
        return;
      }
      FileNode(w, name);
      ghost var fs';
      ret, fs' := table.WriteAndPut(file, buf, start, w.fs);
      assert multiset{cur.nr, file.nr} - multiset{file.nr} == multiset{cur.nr};
      assert map[cur.nr := cur, file.nr := file] - {file.nr} == map[cur.nr := cur];
      WroteFile(w, file.nr, buf, start, ret, fs');
      w := w.(fs := fs');
    }
  }
}

/** The end of a session, and the start of the next one. */
module Sessions {
  import opened Bytes
  import opened Bitmaps
  import opened Super
  import opened BlockMap
  import opened ReadWrite
  import opened FileData
  import opened DiskInodes
  import opened FileSystem
  import opened InodeCache
  import opened DenseFiles
  import opened Trees
  import opened Directories
  import opened Commands
  import opened Shells
  import Dirents

  lemma SyncedGood(fs: Fs, fs': Fs, nr: nat)
    requires fs.Ok() && Synced(fs, fs') && nr < NR_INODES
    ensures fs'.Good(nr)
    ensures forall off :: 0 <= off < MAX_FILE_SIZE ==> ByteAt(fs'.Of(nr), off) == ByteAt(fs.Of(nr), off)
  {
    assert fs.Good(nr);
    var s := fs.Of(nr);
    forall b | b in s.own.Keys ensures b in s.own {
    }
    OwnFrame(s, fs'.Of(nr));
  }

  /** Writing inodes to their slots is of no concern to the files and directories. */
  lemma SyncedAgrees(fs: Fs, fs': Fs, nodes: map<int, Node>)
    requires Agrees(fs, nodes) && Synced(fs, fs')
    ensures Agrees(fs', nodes)
  {
    hide Holds;
    hide Fs.Good;
    hide ByteAt;
    forall nr | 0 <= nr < NR_INODES ensures fs'.Good(nr) {
      SyncedGood(fs, fs', nr);
    }
    forall nr | nr in nodes ensures NodeOk(fs', nodes, nr) {
      assert NodeOk(fs, nodes, nr);
      SyncedGood(fs, fs', nr);
      SyncedHolds(fs, fs', nodes, nr);
    }
  }

  lemma SyncedHolds(fs: Fs, fs': Fs, nodes: map<int, Node>, nr: nat)
    requires nr in nodes && NodeOk(fs, nodes, nr) && Synced(fs, fs')
    requires forall off :: 0 <= off < MAX_FILE_SIZE ==> ByteAt(fs'.Of(nr), off) == ByteAt(fs.Of(nr), off)
    ensures NodeOk(fs', nodes, nr)
  {
    hide ByteAt;
  }

  lemma RemountedDisk(s: SuperBlock, s': SuperBlock)
    requires s.Valid() && s'.Valid() && s'.disk == s.disk
    ensures |s.data| == |s'.data| == DEVICE_BLOCKS
    ensures forall b :: INODE_BLOCKS_START <= b < DEVICE_BLOCKS ==> s'.data[b] == s.data[b]
    ensures forall nr: nat :: nr < NR_INODES ==> InodeAt(s'.data, nr) == InodeAt(s.data, nr)
  {
    hide SuperBlock.Valid;
    DiskBlock(s, 0);
    DiskBlock(s', 0);
    forall b | INODE_BLOCKS_START <= b < DEVICE_BLOCKS ensures s'.data[b] == s.data[b] {
      DiskBlock(s, b);
      DiskBlock(s', b);
    }
    forall nr: nat | nr < NR_INODES ensures InodeAt(s'.data, nr) == InodeAt(s.data, nr) {
      InodeBlocksKept(s.data, s'.data, nr);
    }
  }

  /** main: the inode of the root directory becomes the current one. */
  method Boot(sb: SuperBlock, ghost w: World) returns (shell: Shell)
    requires sb.Valid() && |sb.data| == DEVICE_BLOCKS && w.Ok() && w.cur == 0 && |w.fs.inodes| == NR_INODES
    requires w.fs.disk == sb.data && w.fs.sb == sb.sb && w.fs.used == sb.used && w.fs.bits == sb.inodeFreemap.bits
    requires forall nr: nat :: nr < NR_INODES ==> w.fs.inodes[nr] == InodeAt(sb.data, nr)
    ensures shell.Valid() && !shell.cur.dirty && shell.w == w
  {
    hide InodeAt;
    hide World.Ok;
    hide SuperBlock.Valid;
    var table := new InodeTable(sb);
    table.ShowsAll(w.fs);
    hide InodeTable.Hashed;
    var root := table.GetInode(0);
    table.ShowsAll(w.fs);
    assert map[][0 := root] == map[0 := root];
    shell := new Shell(table, root, w);
  }

  /** testfs_close_super_block, and main of the next session, which starts in the root directory */
  method Reopen(table: InodeTable, ghost w: World) returns (shell: Shell)
    requires table.Shows(w.fs) && w.Ok() && table.cached == map[]
    modifies table.sb`disk
    ensures shell.Valid() && !shell.cur.dirty && shell.w == w.(fs := shell.w.fs, cur := 0) && Synced(w.fs, shell.w.fs)
  {
    hide InodeAt;
    hide Agrees;
    hide Tree.DirOk;
    hide Tree.PlaceOk;
    hide Shows;
    hide Fs.Ok;
    hide SuperBlock.Valid;
    hide InodeTable.Hashed;
    table.ShowsParts(w.fs);
    forall nr: nat | nr < NR_INODES ensures w.fs.inodes[nr] == InodeAt(table.sb.data, nr) {
      assert table.Lookup(nr) == InodeAt(table.sb.data, nr);
    }
    hide InodeTable.Shows;
    hide InodeTable.Coherent;
    hide InodeTable.Lookup;
    var sb := Remount(table.sb);
    RemountedDisk(table.sb, sb);
    ghost var fs := w.fs.(disk := sb.data);
    SyncedAgrees(w.fs, fs, w.nodes);
    shell := Boot(sb, w.(fs := fs, cur := 0));
  }

  /** testfs_put_inode of the only inode in memory */
  method PutLast(table: InodeTable, file: Inode, ghost fs: Fs)
    requires table.Shows(fs) && !file.dirty && table.cached == map[file.nr := file] && table.refs == multiset{file.nr}
    modifies table, file`count
    ensures table.Shows(fs) && table.cached == map[]
  {
    hide InodeTable.Hashed;
    hide InodeAt;
    table.ShowsParts(fs);
    hide InodeTable.Shows;
    hide InodeTable.Coherent;
    hide InodeTable.Lookup;
    hide SuperBlock.Valid;
    table.PutInode(file);
    table.ShowsAll(fs);
    assert multiset{file.nr} - multiset{file.nr} == multiset{};
    assert map[file.nr := file] - {file.nr} == map[];
  }

  /** The end of a session and the start of the next one: files, directories, and the tree are as they were. */
  method Restart(shell: Shell) returns (shell': Shell)
    requires shell.Valid() && !shell.cur.dirty
    modifies shell.table, shell.cur`count, shell.table.sb`disk
    ensures shell'.Valid() && !shell'.cur.dirty
    ensures shell'.w == old(shell.w).(fs := shell'.w.fs, cur := 0) && Synced(old(shell.w.fs), shell'.w.fs)
  {
    hide InodeTable.Shows;
    hide World.Ok;
    PutLast(shell.table, shell.cur, shell.w.fs);
    shell' := Reopen(shell.table, shell.w);
  }

  lemma MadeSynced(fs: Fs, nr: nat, parent: int, fs1: Fs, fs2: Fs)
    requires Commands.Made(fs, nr, parent, true, fs1) && Synced(fs1, fs2)
    ensures Commands.Made(fs, nr, parent, true, fs2)
  {
    hide Step;
    var f1, f2 :|
      Step(fs, Create(nr, I_DIR), f1) && Step(f1, Write(nr, Dirents.Rec(nr, Dot()).Encode(), 0), f2) &&
      Step(f2, Write(nr, Dirents.Rec(parent, DotDot()).Encode(), 10), fs1);
    StepSynced(f2, Write(nr, Dirents.Rec(parent, DotDot()).Encode(), 10), fs1, fs2);
  }

  lemma FreshAgrees(disk: seq<Block>, sb: DSuperBlock)
    requires |disk| == DEVICE_BLOCKS && sb.usedBlockCount == 0
    ensures Agrees(Fresh(disk, sb), map[]) && Fresh(disk, sb).bits == {}
  {
    FreshOk(disk, sb);
    FreshParts(disk, sb);
  }

  /** The file system with its root directory */
  lemma RootWorld(disk: seq<Block>, sb: DSuperBlock, fs: Fs) returns (w: World)
    requires |disk| == DEVICE_BLOCKS && sb.usedBlockCount == 0 && Commands.Made(Fresh(disk, sb), 0, 0, true, fs)
    ensures w.fs == fs && Root(w) && w.Ok()
  {
    hide Commands.Made;
    hide Fresh;
    hide Agrees;
    FreshAgrees(disk, sb);
    var node := MadeAgrees(Fresh(disk, sb), map[], 0, 0, true, fs);
    w := World(fs, map[0 := node], Tree(map[0 := NewDir(0, 0)], {}, map[], map[0 := 0]), 0);
    RootOk(w);
  }

  lemma RootAgain(disk: seq<Block>, sb: DSuperBlock, w: World, fs: Fs)
    requires |disk| == DEVICE_BLOCKS && sb.usedBlockCount == 0
    requires Root(w) && Commands.Made(Fresh(disk, sb), 0, 0, true, fs)
    ensures Root(w.(fs := fs, cur := 0))
  {
    hide Commands.Made;
    hide Fresh;
  }

  lemma RoomOfFresh(maxFsBlocks: nat, disk: seq<Block>, nr: nat, fs1: Fs)
    requires Step(Fresh(disk, NewSuper(maxFsBlocks)), Create(nr, I_DIR), fs1)
    ensures maxFsBlocks > 0 ==> Room(fs1.sb) > 0
  {
  }

  /** mktestfs, with the root directory, and the start of testfs: with a limit of at least one block, the commands begin
      in the root directory of a fresh file system. */
  method Start(device: seq<Block>, maxFsBlocks: nat) returns (shell: Shell?)
    requires |device| == DEVICE_BLOCKS && maxFsBlocks < 0x1_0000_0000_0000_0000
    ensures maxFsBlocks > 0 ==> shell != null
    ensures shell != null ==> shell.Valid() && !shell.cur.dirty && Root(shell.w)
  {
    hide InodeTable.Shows;
    hide Agrees;
    hide Fresh;
    hide Fs.Ok;
    hide Step;
    hide Root;
    hide World.Ok;
    hide Commands.Made;
    var table;
    ghost var fs, fs1, fs2;
    table, fs := MakeFileSystem(device, maxFsBlocks);
    ghost var disk, sb := fs.disk, NewSuper(maxFsBlocks);
    table.ShowsParts(fs);
    FreshAgrees(disk, sb);
    var ret, file;
    assert 0 !in fs.bits;
    ret, file, fs1 := table.CreateInode(I_DIR, fs);
    assert file.nr == 0;
    assert file.nr in table.cached && table.cached[file.nr] == file;
    RoomOfFresh(maxFsBlocks, disk, 0, fs1);
    ret, fs2 := CreateEmptyDir(table, file, file.nr, fs, map[], fs1);
    if ret < 0 {
      return null;
    }
    ghost var w := RootWorld(disk, sb, fs2);
    DirectoryInode(w);
    ghost var fs3 := table.SyncHeld(file, fs2);
    MadeSynced(fs, 0, 0, fs2, fs3);
    PutLast(table, file, fs3);
    w := RootWorld(disk, sb, fs3);
    shell := Reopen(table, w);
    MadeSynced(fs, 0, 0, fs3, shell.w.fs);
    RootAgain(disk, sb, w, shell.w.fs);
  }
}
