/** fs/read_write.c: giving back all the blocks of a file. */
module FreeBlocks {
  import opened Bytes
  import opened Bitmaps
  import opened Super
  import opened BlockMap
  import opened ReadWrite

  /** `DIVROUNDUP(size, BLOCK_SIZE)` */
  function BlocksOf(size: int): int {
    (size + BLOCK_SIZE - 1) / BLOCK_SIZE
  }

  /** testfs_free_blocks looks at slot s of a file of e blocks. */
  predicate Covered(s: Slot, e: int) {
    match s
    case Direct(i) => i < e
    case Indirect => true
    case IndirectEntry(i) => NR_DIRECT_BLOCKS + i < e
    case Double => DOUBLE_START <= e
    case Table(p) => DOUBLE_START + p * NR_INDIRECT_BLOCKS < e
    case TableEntry(p, q) => DOUBLE_START + p * NR_INDIRECT_BLOCKS + q < e
  }

  /** How far testfs_free_blocks got: the direct slots and the indirect entries looked at, the double indirect
      entries looked at (those of tables below p, and below q in table p, up to `limit`), and whether the two top
      tables were given back. */
  datatype Stage = Stage(direct: int, entries: int, indirect: bool, p: int, q: int, limit: int, double: bool) {
    predicate Seen(s: Slot) {
      match s
      case Direct(i) => i < direct
      case Indirect => indirect
      case IndirectEntry(i) => i < entries
      case Double => double
      case Table(t) => t < p
      case TableEntry(t, i) => (t < p || (t == p && i < q)) && t * NR_INDIRECT_BLOCKS + i < limit
    }
  }

  /** From s to t the blocks `gone`, which are those whose slot was looked at, were zeroed and given back. */
  ghost predicate GaveBack(s: State, st: Stage, gone: set<int>, t: State) {
    gone <= s.own.Keys && |t.disk| == |s.disk| == DEVICE_BLOCKS && t.own == s.own &&
    (forall b :: b in s.own ==> (b in gone <==> st.Seen(s.own[b]))) &&
    (forall b :: b in t.used <==> b in s.used && b !in gone) &&
    t.sb == s.sb.(usedBlockCount := s.sb.usedBlockCount - |gone|) &&
    t.din.blockCount == s.din.blockCount - |gone| && t.din.iSize == s.din.iSize && t.din.iType == s.din.iType &&
    forall b :: INODE_BLOCKS_START <= b < DEVICE_BLOCKS ==> t.disk[b] == if b in gone then ZeroBlock() else s.disk[b]
  }

  /** The stage st' has looked at one slot more than st. */
  ghost predicate OneMoreSlot(st: Stage, slot: Slot, st': Stage) {
    !st.Seen(slot) && forall x: Slot :: x.Valid() ==> (st'.Seen(x) <==> st.Seen(x) || x == slot)
  }

  lemma OwnedPointer(s: State, slot: Slot)
    requires s.Sound() && slot.Valid()
    ensures var p := Ptr(s.disk, s.din, slot);
            p >= 0 && (p != 0 ==> p in s.own && s.own[p] == slot && DATA_BLOCKS_START <= p < DEVICE_BLOCKS)
    ensures forall b :: b in s.own && s.own[b] == slot ==> b == Ptr(s.disk, s.din, slot)
  {
  }

  lemma GiveBackOne(s: State, st: Stage, gone: set<int>, t: State, slot: Slot, st': Stage)
    requires s.Sound() && GaveBack(s, st, gone, t) && slot.Valid() && OneMoreSlot(st, slot, st')
    ensures var p := Ptr(s.disk, s.din, slot);
            p >= 0 &&
            if p == 0 then GaveBack(s, st', gone, t)
            else DATA_BLOCKS_START <= p < DEVICE_BLOCKS && p in t.used && GaveBack(s, st', gone + {p}, t.Drop(p))
  {
    OwnedPointer(s, slot);
  }

  /** Stages that look at the same blocks of the inode are the same. */
  lemma SameStage(s: State, st: Stage, gone: set<int>, t: State, st': Stage)
    requires GaveBack(s, st, gone, t)
    requires forall b :: b in s.own ==> (st'.Seen(s.own[b]) <==> st.Seen(s.own[b]))
    ensures GaveBack(s, st', gone, t)
  {
  }

  /** testfs_free_block_from_inode on the pointer p of a slot, which may be 0 */
  method FreeSlot(file: Inode, p: nat, ghost slot: Slot, ghost s: State, ghost st: Stage, ghost st': Stage,
                  ghost gone: set<int>)
    returns (ghost gone': set<int>)
    requires file.sb.Valid() && s.Sound() && GaveBack(s, st, gone, file.S(s.own))
    requires slot.Valid() && OneMoreSlot(st, slot, st') && p == Ptr(s.disk, s.din, slot)
    modifies file`din, file`dirty, file.sb, file.sb.blockFreemap, file.sb.blockFreemap.v
    ensures file.sb.Valid() && file.sb.inodeFreemap.bits == old(file.sb.inodeFreemap.bits)
    ensures GaveBack(s, st', gone', file.S(s.own)) && SamePointers(old(file.din), file.din)
  {
    ghost var t := file.S(s.own);
    GiveBackOne(s, st, gone, t, slot, st');
    gone' := if p == 0 then gone else gone + {p};
    file.FreeBlockFromInode(p);
    assert file.S(s.own) == if p == 0 then t else t.Drop(p);
  }

  /** One entry of a table: the block is given back, and the entry cleared in the buffer. */
  method FreeEntry(file: Inode, block: Block, k: nat, ghost slot: Slot, ghost s: State, ghost st: Stage,
                   ghost st': Stage, ghost gone: set<int>)
    returns (block': Block, ghost gone': set<int>)
    requires file.sb.Valid() && s.Sound() && GaveBack(s, st, gone, file.S(s.own))
    requires k < NR_INDIRECT_BLOCKS && slot.Valid() && OneMoreSlot(st, slot, st') &&
             Word(block, k) == Ptr(s.disk, s.din, slot)
    modifies file`din, file`dirty, file.sb, file.sb.blockFreemap, file.sb.blockFreemap.v
    ensures file.sb.Valid() && file.sb.inodeFreemap.bits == old(file.sb.inodeFreemap.bits)
    ensures GaveBack(s, st', gone', file.S(s.own)) && SamePointers(old(file.din), file.din)
    ensures IsPut(block, k, 0, block')
  {
    OwnedPointer(s, slot);
    PutWordIsPut(block, k, 0);
    block' := PutWord(block, k, 0);
    gone' := FreeSlot(file, Word(block, k), slot, s, st, st', gone);
  }

  // ---- The direct blocks ----

  /** The direct slots below i are 0; the other pointer fields are as they were. */
  ghost predicate DirectCleared(d: DInode, i: int, d': DInode) {
    d'.iIndirect == d.iIndirect && d'.iDindirect == d.iDindirect && |d'.iBlockNr| == |d.iBlockNr| &&
    forall j :: 0 <= j < |d.iBlockNr| ==> d'.iBlockNr[j] == if j < i then 0 else d.iBlockNr[j]
  }

  lemma TopOneMore(st: Stage)
    ensures !st.indirect ==> OneMoreSlot(st, Indirect, st.(indirect := true))
    ensures !st.double ==> OneMoreSlot(st, Double, st.(double := true))
  {
  }

  lemma TopCleared(s: State, st: Stage, gone: set<int>, t: State)
    requires GaveBack(s, st, gone, t)
    ensures GaveBack(s, st, gone, t.(din := t.din.(iIndirect := 0))) &&
            GaveBack(s, st, gone, t.(din := t.din.(iDindirect := 0)))
  {
  }

  /** The direct pointers are no part of the account. */
  lemma PointerCleared(s: State, st: Stage, gone: set<int>, t: State, i: nat)
    requires GaveBack(s, st, gone, t) && i < |t.din.iBlockNr|
    ensures GaveBack(s, st, gone, t.(din := t.din.(iBlockNr := t.din.iBlockNr[i := 0])))
  {
  }

  lemma DirectHole(s: State, st: Stage, gone: set<int>, t: State, i: nat)
    requires s.Sound() && i < NR_DIRECT_BLOCKS && st.direct == i && GaveBack(s, st, gone, t) &&
             Ptr(s.disk, s.din, Direct(i)) == 0
    ensures GaveBack(s, st.(direct := i + 1), gone, t)
  {
    forall b | b in s.own ensures s.own[b] != Direct(i) {
      assert Ptr(s.disk, s.din, s.own[b]) == b;
    }
  }

  lemma DirectOneMore(st: Stage, i: nat)
    requires st.direct == i
    ensures OneMoreSlot(st, Direct(i), st.(direct := i + 1))
  {
  }

  method FreeDirectAt(file: Inode, i: nat, ghost s: State, ghost st: Stage, ghost gone: set<int>)
    returns (ghost gone': set<int>)
    requires file.sb.Valid() && s.Sound() && i < NR_DIRECT_BLOCKS && st.direct == i
    requires GaveBack(s, st, gone, file.S(s.own)) && DirectCleared(s.din, i, file.din)
    modifies file`din, file`dirty, file.sb, file.sb.blockFreemap, file.sb.blockFreemap.v
    ensures file.sb.Valid() && file.sb.inodeFreemap.bits == old(file.sb.inodeFreemap.bits)
    ensures GaveBack(s, st.(direct := i + 1), gone', file.S(s.own)) && DirectCleared(s.din, i + 1, file.din)
  {
    hide SuperBlock.Valid;
    hide GaveBack;
    hide OneMoreSlot;
    hide State.Sound;
    SoundPointersIn(s);
    OwnedPointer(s, Direct(i));
    DirectOneMore(st, i);
    gone' := gone;
    if file.din.iBlockNr[i] != 0 {
      gone' := FreeSlot(file, file.din.iBlockNr[i], Direct(i), s, st, st.(direct := i + 1), gone);
      PointerCleared(s, st.(direct := i + 1), gone', file.S(s.own), i);
      file.din := file.din.(iBlockNr := file.din.iBlockNr[i := 0]);
    } else {
      DirectHole(s, st, gone, file.S(s.own), i);
    }
  }

  lemma NothingGone(s: State, limit: int)
    requires s.Sound()
    ensures GaveBack(s, Stage(0, 0, false, 0, 0, limit, false), {}, s)
  {
  }

  lemma DirectStage(s: State, e: nat, limit: int, i: nat, gone: set<int>, t: State)
    requires s.Sound() && GaveBack(s, Stage(i, 0, false, 0, 0, limit, false), gone, t) &&
             (i == e || i == NR_DIRECT_BLOCKS <= e)
    requires DirectCleared(s.din, i, t.din)
    ensures GaveBack(s, Stage(e, 0, false, 0, 0, limit, false), gone, t) && DirectCleared(s.din, e, t.din)
  {
    SameStage(s, Stage(i, 0, false, 0, 0, limit, false), gone, t, Stage(e, 0, false, 0, 0, limit, false));
  }

  method FreeDirect(file: Inode, e: nat, ghost limit: int, ghost s: State) returns (ghost gone: set<int>)
    requires file.sb.Valid() && s.Sound() && file.S(s.own) == s
    modifies file`din, file`dirty, file.sb, file.sb.blockFreemap, file.sb.blockFreemap.v
    ensures file.sb.Valid() && file.sb.inodeFreemap.bits == old(file.sb.inodeFreemap.bits)
    ensures GaveBack(s, Stage(e, 0, false, 0, 0, limit, false), gone, file.S(s.own)) &&
            DirectCleared(s.din, e, file.din)
  {
    hide GaveBack;
    gone := {};
    var i := 0;
    ghost var st := Stage(0, 0, false, 0, 0, limit, false);
    NothingGone(s, limit);
    while i < e && i < NR_DIRECT_BLOCKS
      invariant i <= NR_DIRECT_BLOCKS && i <= e && st == Stage(i, 0, false, 0, 0, limit, false)
      invariant file.sb.Valid() && file.sb.inodeFreemap.bits == old(file.sb.inodeFreemap.bits)
      invariant GaveBack(s, st, gone, file.S(s.own)) && DirectCleared(s.din, i, file.din)
    {
      gone := FreeDirectAt(file, i, s, st, gone);
      i := i + 1;
      st := st.(direct := i);
    }
    DirectStage(s, e, limit, i, gone, file.S(s.own));
  }

  // ---- The indirect block ----

  /** Entry i of the indirect block */
  method FreeIndirectEntry(file: Inode, block: Block, i: nat, ghost s: State, ghost st: Stage, ghost gone: set<int>)
    returns (block': Block, ghost gone': set<int>)
    requires file.sb.Valid() && s.Sound() && GaveBack(s, st, gone, file.S(s.own))
    requires i < NR_INDIRECT_BLOCKS && st.entries == i && IndirectEntriesLeft(s, i, block)
    modifies file`din, file`dirty, file.sb, file.sb.blockFreemap, file.sb.blockFreemap.v
    ensures file.sb.Valid() && file.sb.inodeFreemap.bits == old(file.sb.inodeFreemap.bits)
    ensures GaveBack(s, st.(entries := i + 1), gone', file.S(s.own)) && SamePointers(old(file.din), file.din)
    ensures IndirectEntriesLeft(s, i + 1, block')
  {
    NextIndirectEntry(st, i);
    block', gone' := FreeEntry(file, block, i, IndirectEntry(i), s, st, st.(entries := i + 1), gone);
  }

  /** From entry i on, block holds the indirect block. */
  ghost predicate IndirectEntriesLeft(s: State, i: nat, block: Block) {
    forall j: nat :: i <= j < NR_INDIRECT_BLOCKS ==> Word(block, j) == Ptr(s.disk, s.din, IndirectEntry(j))
  }

  lemma IndirectLeft(s: State, st: Stage, gone: set<int>, t: State)
    requires s.Sound() && GaveBack(s, st, gone, t) && !st.indirect && s.din.iIndirect != 0
    ensures DATA_BLOCKS_START <= s.din.iIndirect < DEVICE_BLOCKS && IndirectEntriesLeft(s, 0, t.disk[s.din.iIndirect])
  {
    OwnedPointer(s, Indirect);
  }

  /** The entries of the indirect block */
  method FreeIndirectEntries(file: Inode, e: int, ghost s: State, ghost st: Stage, ghost gone: set<int>)
    returns (ghost gone': set<int>)
    requires file.sb.Valid() && s.Sound() && st.entries == 0 && !st.indirect
    requires GaveBack(s, st, gone, file.S(s.own)) && file.din.iIndirect == s.din.iIndirect > 0
    modifies file`din, file`dirty, file.sb, file.sb.blockFreemap, file.sb.blockFreemap.v
    ensures file.sb.Valid() && file.sb.inodeFreemap.bits == old(file.sb.inodeFreemap.bits)
    ensures GaveBack(s, st.(entries := e), gone', file.S(s.own))
    ensures SamePointers(old(file.din), file.din)
  {
    hide SuperBlock.Valid;
    hide GaveBack;
    hide IndirectEntriesLeft;
    gone' := gone;
    IndirectLeft(s, st, gone, file.S(s.own));
    DiskBlock(file.sb, file.din.iIndirect);
    var block: Block := file.sb.disk[file.din.iIndirect];
    var i := 0;
    ghost var now := st;
    while i < e && i < NR_INDIRECT_BLOCKS
      invariant i <= NR_INDIRECT_BLOCKS && (i > 0 ==> i <= e) && now == st.(entries := i)
      invariant file.sb.Valid() && file.sb.inodeFreemap.bits == old(file.sb.inodeFreemap.bits)
      invariant GaveBack(s, now, gone', file.S(s.own)) && SamePointers(old(file.din), file.din)
      invariant IndirectEntriesLeft(s, i, block)
    {
      block, gone' := FreeIndirectEntry(file, block, i, s, now, gone');
      i := i + 1;
      now := now.(entries := i);
    }
    SameStage(s, now, gone', file.S(s.own), st.(entries := e));
  }

  lemma NextIndirectEntry(st: Stage, i: nat)
    ensures OneMoreSlot(st.(entries := i), IndirectEntry(i), st.(entries := i + 1))
  {
  }

  method FreeIndirect(file: Inode, e: int, ghost s: State, ghost st: Stage, ghost gone: set<int>)
    returns (ghost gone': set<int>)
    requires file.sb.Valid() && s.Sound() && st.entries == 0 && !st.indirect
    requires GaveBack(s, st, gone, file.S(s.own)) && file.din.iIndirect == s.din.iIndirect
    modifies file`din, file`dirty, file.sb, file.sb.blockFreemap, file.sb.blockFreemap.v
    ensures file.sb.Valid() && file.sb.inodeFreemap.bits == old(file.sb.inodeFreemap.bits)
    ensures GaveBack(s, st.(entries := e, indirect := true), gone', file.S(s.own))
    ensures file.din.iIndirect == 0 && file.din.iBlockNr == old(file.din).iBlockNr &&
            file.din.iDindirect == old(file.din).iDindirect
  {
    hide SuperBlock.Valid;
    hide GaveBack;
    hide OneMoreSlot;
    hide State.Sound;
    OwnedPointer(s, Indirect);
    if file.din.iIndirect > 0 {
      gone' := FreeIndirectEntries(file, e, s, st, gone);
      ghost var now := st.(entries := e);
      TopOneMore(now);
      gone' := FreeSlot(file, file.din.iIndirect, Indirect, s, now, now.(indirect := true), gone');
      TopCleared(s, now.(indirect := true), gone', file.S(s.own));
      file.din := file.din.(iIndirect := 0);
    } else {
      gone' := gone;
      NoIndirect(s, st, gone, file.S(s.own), e);
    }
  }

  lemma NoIndirect(s: State, st: Stage, gone: set<int>, t: State, e: int)
    requires s.Sound() && s.din.iIndirect == 0 && GaveBack(s, st, gone, t)
    ensures GaveBack(s, st.(entries := e, indirect := true), gone, t)
  {
    forall b | b in s.own ensures s.own[b] != Indirect && !s.own[b].IndirectEntry? {
      assert Ptr(s.disk, s.din, s.own[b]) == b;
    }
  }

  // ---- The double indirect block ----

  /** Entry j of the second-level table p */
  method FreeTableEntry(file: Inode, p: nat, block: Block, j: nat, ghost s: State, ghost st: Stage,
                        ghost gone: set<int>)
    returns (block': Block, ghost gone': set<int>)
    requires file.sb.Valid() && s.Sound() && GaveBack(s, st, gone, file.S(s.own))
    requires p < NR_INDIRECT_BLOCKS && j < NR_INDIRECT_BLOCKS && st.p == p && st.q == j &&
             p * NR_INDIRECT_BLOCKS + j < st.limit
    requires EntriesLeft(s, p, j, block)
    modifies file`din, file`dirty, file.sb, file.sb.blockFreemap, file.sb.blockFreemap.v
    ensures file.sb.Valid() && file.sb.inodeFreemap.bits == old(file.sb.inodeFreemap.bits)
    ensures GaveBack(s, st.(q := j + 1), gone', file.S(s.own)) && SamePointers(old(file.din), file.din)
    ensures EntriesLeft(s, p, j + 1, block')
  {
    NextTableEntry(st, j);
    block', gone' := FreeEntry(file, block, j, TableEntry(p, j), s, st, st.(q := j + 1), gone);
  }

  /** From entry j on, block holds the second-level table p. */
  ghost predicate EntriesLeft(s: State, p: nat, j: nat, block: Block) {
    forall k: nat :: j <= k < NR_INDIRECT_BLOCKS ==> Word(block, k) == Ptr(s.disk, s.din, TableEntry(p, k))
  }

  lemma TableLeft(s: State, st: Stage, gone: set<int>, t: State, p: nat, table: nat)
    requires s.Sound() && GaveBack(s, st, gone, t) && st.p == p < NR_INDIRECT_BLOCKS &&
             table == Ptr(s.disk, s.din, Table(p)) > 0
    ensures DATA_BLOCKS_START <= table < DEVICE_BLOCKS && EntriesLeft(s, p, 0, t.disk[table])
  {
    OwnedPointer(s, Table(p));
  }

  /** The entries of the second-level table p, up to the limit; `deleted` counts the entries looked at. */
  method FreeTableEntries(file: Inode, p: nat, table: nat, limit: int, deleted: int, ghost s: State, ghost st: Stage,
                          ghost gone: set<int>)
    returns (deleted': int, ghost gone': set<int>, ghost st': Stage)
    requires file.sb.Valid() && s.Sound() && p < NR_INDIRECT_BLOCKS && table == Ptr(s.disk, s.din, Table(p)) > 0
    requires st.p == p && st.q == 0 && st.limit == limit && deleted == p * NR_INDIRECT_BLOCKS < limit
    requires GaveBack(s, st, gone, file.S(s.own))
    modifies file`din, file`dirty, file.sb, file.sb.blockFreemap, file.sb.blockFreemap.v
    ensures file.sb.Valid() && file.sb.inodeFreemap.bits == old(file.sb.inodeFreemap.bits)
    ensures st' == st.(q := deleted' - deleted) && GaveBack(s, st', gone', file.S(s.own)) &&
            SamePointers(old(file.din), file.din)
    ensures deleted' == (p + 1) * NR_INDIRECT_BLOCKS <= limit || deleted' == limit < (p + 1) * NR_INDIRECT_BLOCKS
  {
    hide SuperBlock.Valid;
    hide State.Sound;
    hide GaveBack;
    hide EntriesLeft;
    gone' := gone;
    deleted' := deleted;
    TableLeft(s, st, gone, file.S(s.own), p, table);
    DiskBlock(file.sb, table);
    var singleBlock: Block := file.sb.disk[table];
    var j := 0;
    st' := st;
    while deleted' < limit && j < NR_INDIRECT_BLOCKS
      invariant j <= NR_INDIRECT_BLOCKS && deleted' == deleted + j <= limit && st' == st.(q := j)
      invariant file.sb.Valid() && file.sb.inodeFreemap.bits == old(file.sb.inodeFreemap.bits)
      invariant GaveBack(s, st', gone', file.S(s.own)) && SamePointers(old(file.din), file.din)
      invariant EntriesLeft(s, p, j, singleBlock)
    {
      singleBlock, gone' := FreeTableEntry(file, p, singleBlock, j, s, st', gone');
      deleted', j := deleted' + 1, j + 1;
      st' := st'.(q := j);
    }
  }

  lemma NextTableEntry(st: Stage, q: nat)
    requires 0 <= st.p && q < NR_INDIRECT_BLOCKS && st.p * NR_INDIRECT_BLOCKS + q < st.limit
    ensures OneMoreSlot(st.(q := q), TableEntry(st.p, q), st.(q := q + 1))
  {
  }

  /** Slot p of the double indirect block: its table with the entries up to the limit, or a hole of a whole table. */
  method FreeTable(file: Inode, p: nat, table: int, limit: int, deleted: int, ghost s: State, ghost st: Stage,
                   ghost gone: set<int>)
    returns (deleted': int, ghost gone': set<int>)
    requires file.sb.Valid() && s.Sound() && p < NR_INDIRECT_BLOCKS && table == Ptr(s.disk, s.din, Table(p))
    requires st.p == p && st.q == 0 && st.limit == limit && deleted == p * NR_INDIRECT_BLOCKS < limit
    requires GaveBack(s, st, gone, file.S(s.own))
    modifies file`din, file`dirty, file.sb, file.sb.blockFreemap, file.sb.blockFreemap.v
    ensures file.sb.Valid() && file.sb.inodeFreemap.bits == old(file.sb.inodeFreemap.bits)
    ensures GaveBack(s, st.(p := p + 1), gone', file.S(s.own)) && SamePointers(old(file.din), file.din)
    ensures deleted' == (p + 1) * NR_INDIRECT_BLOCKS || deleted' == limit < (p + 1) * NR_INDIRECT_BLOCKS
  {
    hide SuperBlock.Valid;
    OwnedPointer(s, Table(p));
    if table > 0 {
      ghost var st';
      deleted', gone', st' := FreeTableEntries(file, p, table, limit, deleted, s, st, gone);
      TableStage(st, deleted' - deleted);
      gone' := FreeSlot(file, table, Table(p), s, st', st.(p := p + 1), gone');
    } else {
      gone' := gone;
      deleted' := deleted + NR_INDIRECT_BLOCKS;
      NoTable(s, st, gone, file.S(s.own));
    }
  }

  lemma TableStage(st: Stage, q: int)
    requires st.q == 0 && 0 <= st.p && 0 <= q <= NR_INDIRECT_BLOCKS
    requires q == NR_INDIRECT_BLOCKS || st.p * NR_INDIRECT_BLOCKS + q == st.limit
    ensures OneMoreSlot(st.(q := q), Table(st.p), st.(p := st.p + 1))
  {
  }

  lemma NoTable(s: State, st: Stage, gone: set<int>, t: State)
    requires s.Sound() && 0 <= st.p < NR_INDIRECT_BLOCKS && Ptr(s.disk, s.din, Table(st.p)) == 0 && st.q == 0 &&
             GaveBack(s, st, gone, t)
    ensures GaveBack(s, st.(p := st.p + 1), gone, t)
  {
    forall b | b in s.own ensures s.own[b] != Table(st.p) && (s.own[b].TableEntry? ==> s.own[b].p != st.p) {
      assert Ptr(s.disk, s.din, s.own[b]) == b;
    }
  }

  /** From entry p on, block holds the double indirect block. */
  ghost predicate TablesLeft(s: State, p: nat, block: Block) {
    forall k: nat :: p <= k < NR_INDIRECT_BLOCKS ==> Word(block, k) == Ptr(s.disk, s.din, Table(k))
  }

  lemma TablesLeftAll(s: State, st: Stage, gone: set<int>, t: State)
    requires s.Sound() && GaveBack(s, st, gone, t) && !st.double
    ensures 0 <= s.din.iDindirect < DEVICE_BLOCKS
    ensures s.din.iDindirect != 0 ==>
              DATA_BLOCKS_START <= s.din.iDindirect && TablesLeft(s, 0, t.disk[s.din.iDindirect])
  {
    OwnedPointer(s, Double);
  }

  method ClearEntry(ghost s: State, p: nat, block: Block) returns (block': Block)
    requires p < NR_INDIRECT_BLOCKS && TablesLeft(s, p, block)
    ensures TablesLeft(s, p + 1, block')
  {
    PutWordIsPut(block, p, 0);
    block' := PutWord(block, p, 0);
  }

  /** The second-level tables: those of the first n slots, the last of which still has an entry below the limit. */
  method FreeTables(file: Inode, limit: int, ghost s: State, ghost st: Stage, ghost gone: set<int>)
    returns (ghost gone': set<int>, ghost n: nat, ghost st': Stage)
    requires file.sb.Valid() && s.Sound() && st.p == st.q == 0 && st.limit == limit >= 0
    requires limit > 0 ==> s.din.iDindirect > 0
    requires GaveBack(s, st, gone, file.S(s.own)) && file.din.iDindirect == s.din.iDindirect && !st.double
    modifies file`din, file`dirty, file.sb, file.sb.blockFreemap, file.sb.blockFreemap.v
    ensures file.sb.Valid() && file.sb.inodeFreemap.bits == old(file.sb.inodeFreemap.bits)
    ensures st' == st.(p := n) && GaveBack(s, st', gone', file.S(s.own)) && SamePointers(old(file.din), file.din)
    ensures n == NR_INDIRECT_BLOCKS || limit <= n * NR_INDIRECT_BLOCKS
    ensures n > 0 ==> (n - 1) * NR_INDIRECT_BLOCKS < limit
  {
    hide SuperBlock.Valid;
    hide GaveBack;
    gone' := gone;
    TablesLeftAll(s, st, gone, file.S(s.own));
    var i := 0;
    var deleted := 0;
    DiskBlock(file.sb, file.din.iDindirect);
    var block: Block := file.sb.disk[file.din.iDindirect];
    n := 0;
    st' := st;
    ghost var d := file.din;
    while deleted < limit && i < NR_INDIRECT_BLOCKS
      invariant i == n <= NR_INDIRECT_BLOCKS && (n > 0 ==> (n - 1) * NR_INDIRECT_BLOCKS < limit)
      invariant deleted == n * NR_INDIRECT_BLOCKS || deleted == limit < n * NR_INDIRECT_BLOCKS
      invariant file.sb.Valid() && file.sb.inodeFreemap.bits == old(file.sb.inodeFreemap.bits)
      invariant GaveBack(s, st', gone', file.S(s.own)) && SamePointers(d, file.din) && st' == st.(p := n)
      invariant limit > 0 ==> TablesLeft(s, n, block)
    {
      deleted, gone' := FreeTable(file, i, Word(block, i), limit, deleted, s, st', gone');
      block := ClearEntry(s, i, block);
      i := i + 1;
      n := n + 1;
      st' := st'.(p := n);
    }
  }

  /** The double indirect block */
  method FreeDouble(file: Inode, limit: int, ghost s: State, ghost st: Stage, ghost gone: set<int>)
    returns (ghost gone': set<int>, ghost n: nat)
    requires file.sb.Valid() && s.Sound() && st.p == st.q == 0 && st.limit == limit >= 0
    requires limit > 0 ==> s.din.iDindirect > 0
    requires GaveBack(s, st, gone, file.S(s.own)) && file.din.iDindirect == s.din.iDindirect && !st.double
    modifies file`din, file`dirty, file.sb, file.sb.blockFreemap, file.sb.blockFreemap.v
    ensures file.sb.Valid() && file.sb.inodeFreemap.bits == old(file.sb.inodeFreemap.bits)
    ensures GaveBack(s, st.(p := n, double := true), gone', file.S(s.own))
    ensures file.din.iDindirect == 0 && file.din.iBlockNr == old(file.din).iBlockNr &&
            file.din.iIndirect == old(file.din).iIndirect
    ensures n == NR_INDIRECT_BLOCKS || limit <= n * NR_INDIRECT_BLOCKS
    ensures n > 0 ==> (n - 1) * NR_INDIRECT_BLOCKS < limit
  {
    hide GaveBack;
    hide OneMoreSlot;
    hide State.Sound;
    hide SuperBlock.Valid;
    OwnedPointer(s, Double);
    ghost var now;
    gone', n, now := FreeTables(file, limit, s, st, gone);
    TopOneMore(now);
    gone' := FreeSlot(file, file.din.iDindirect, Double, s, now, now.(double := true), gone');
    TopCleared(s, now.(double := true), gone', file.S(s.own));
    file.din := file.din.(iDindirect := 0);
  }

  /** What testfs_free_blocks does: it gives back every covered block, and forgets the pointers that it went through. */
  ghost predicate Released(s: State, gone: set<int>, t: State) {
    var e := BlocksOf(s.din.iSize);
    gone <= s.own.Keys && (forall b :: b in s.own ==> (b in gone <==> Covered(s.own[b], e))) &&
    (forall b :: b in t.used <==> b in s.used && b !in gone) &&
    t.sb == s.sb.(usedBlockCount := s.sb.usedBlockCount - |gone|) && t.own == s.own &&
    |t.disk| == |s.disk| == DEVICE_BLOCKS &&
    (forall b :: INODE_BLOCKS_START <= b < DEVICE_BLOCKS ==>
       t.disk[b] == if b in gone then ZeroBlock() else s.disk[b]) &&
    t.din.blockCount == s.din.blockCount - |gone| && t.din.iSize == 0 && t.din.iType == s.din.iType &&
    t.din.iIndirect == 0 && t.din.iDindirect == (if DOUBLE_START <= e then 0 else s.din.iDindirect) &&
    |s.din.iBlockNr| == |t.din.iBlockNr| == NR_DIRECT_BLOCKS &&
    forall j :: 0 <= j < NR_DIRECT_BLOCKS ==> t.din.iBlockNr[j] == if j < e then 0 else s.din.iBlockNr[j]
  }

  lemma AllStages(s: State, n: nat, st: Stage, gone: set<int>, t: State, r: State)
    requires s.Sound() && GaveBack(s, st, gone, t) && s.din.iSize >= 0
    requires var e := BlocksOf(s.din.iSize);
             st == Stage(e, e - NR_DIRECT_BLOCKS, true, n, 0, e - DOUBLE_START, DOUBLE_START <= e) &&
             (if e < DOUBLE_START then n == 0
              else (n == NR_INDIRECT_BLOCKS || e - DOUBLE_START <= n * NR_INDIRECT_BLOCKS) &&
                   (n > 0 ==> (n - 1) * NR_INDIRECT_BLOCKS < e - DOUBLE_START))
    requires var e := BlocksOf(s.din.iSize);
             t.din.iIndirect == 0 && t.din.iDindirect == (if DOUBLE_START <= e then 0 else s.din.iDindirect) &&
             |t.din.iBlockNr| == NR_DIRECT_BLOCKS &&
             forall j :: 0 <= j < NR_DIRECT_BLOCKS ==> t.din.iBlockNr[j] == if j < e then 0 else s.din.iBlockNr[j]
    requires r == t.(din := t.din.(iSize := 0))
    ensures Released(s, gone, r)
  {
  }

  /** The direct blocks and the indirect block, of a file of e blocks */
  method FreeFirst(file: Inode, e: nat, ghost st: Stage, ghost s: State) returns (ghost gone: set<int>)
    requires file.sb.Valid() && s.Sound() && file.S(s.own) == s
    requires st == Stage(e, e - NR_DIRECT_BLOCKS, true, 0, 0, e - DOUBLE_START, false)
    modifies file`din, file`dirty, file.sb, file.sb.blockFreemap, file.sb.blockFreemap.v
    ensures file.sb.Valid() && file.sb.inodeFreemap.bits == old(file.sb.inodeFreemap.bits)
    ensures GaveBack(s, st, gone, file.S(s.own))
    ensures file.din.iIndirect == 0 && file.din.iDindirect == s.din.iDindirect &&
            |s.din.iBlockNr| == |file.din.iBlockNr| == NR_DIRECT_BLOCKS
    ensures forall j :: 0 <= j < NR_DIRECT_BLOCKS ==> file.din.iBlockNr[j] == if j < e then 0 else s.din.iBlockNr[j]
  {
    hide SuperBlock.Valid;
    gone := FreeDirect(file, e, e - DOUBLE_START, s);
    gone := FreeIndirect(file, e - NR_DIRECT_BLOCKS, s, Stage(e, 0, false, 0, 0, e - DOUBLE_START, false), gone);
  }

  /** testfs_free_blocks */
  method FreeBlocks(file: Inode, ghost own: map<int, Slot>) returns (ret: int, ghost gone: set<int>)
    requires file.Sound(own) && file.din.iSize >= 0 &&
             (BlocksOf(file.din.iSize) > DOUBLE_START ==> file.din.iDindirect > 0)
    modifies file`din, file`dirty, file.sb, file.sb.blockFreemap, file.sb.blockFreemap.v
    ensures file.sb.Valid() && file.sb.inodeFreemap.bits == old(file.sb.inodeFreemap.bits)
    ensures ret == 0 && file.dirty && Released(old(file.S(own)), gone, file.S(own))
  {
    hide SuperBlock.Valid;
    ghost var s := file.S(own);
    var eBlockNr := BlocksOf(file.din.iSize);
    ghost var e, n := eBlockNr, 0;
    ghost var st := Stage(e, e - NR_DIRECT_BLOCKS, true, 0, 0, e - DOUBLE_START, false);
    gone := FreeFirst(file, eBlockNr, st, s);
    eBlockNr := eBlockNr - NR_DIRECT_BLOCKS - NR_INDIRECT_BLOCKS;
    if eBlockNr >= 0 {
      gone, n := FreeDouble(file, eBlockNr, s, st, gone);
      st := st.(p := n, double := true);
    }
    ghost var t := file.S(own);
    file.din := file.din.(iSize := 0);
    file.dirty := true;
    AllStages(s, n, st, gone, t, file.S(own));
    ret := 0;
  }
}
