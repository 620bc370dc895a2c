/** The meaning of an inode: a tree of block pointers of three levels, and the sparse byte array that it maps. */
module BlockMap {
  import opened Bytes
  import opened Super

  const NR_DIRECT_BLOCKS: nat := 10
  // BLOCK_SIZE / sizeof(int), and what follows from it, as literals: the verifier divides by them.
  const NR_INDIRECT_BLOCKS: nat := 2048
  const NR_DOUBLE_BLOCKS: nat := 4194304
  const DOUBLE_START: nat := 2058
  const MAX_FILE_BLOCKS: nat := 4196362

  datatype DInode = DInode(iType: int, iBlockNr: seq<int>, iIndirect: int, iDindirect: int, blockCount: int, iSize: int)

  /** The places in an inode, or in one of its table blocks, that hold a block pointer. */
  datatype Slot =
    | Direct(i: nat)
    | Indirect
    | IndirectEntry(i: nat)
    | Double
    | Table(p: nat)
    | TableEntry(p: nat, q: nat)
  {
    predicate Valid() {
      match this
      case Direct(i) => i < NR_DIRECT_BLOCKS
      case Indirect => true
      case IndirectEntry(i) => i < NR_INDIRECT_BLOCKS
      case Double => true
      case Table(p) => p < NR_INDIRECT_BLOCKS
      case TableEntry(p, q) => p < NR_INDIRECT_BLOCKS && q < NR_INDIRECT_BLOCKS
    }

    /** The block that this slot points to holds pointers. */
    predicate IsTable() {
      Indirect? || Double? || Table?
    }

    /** This slot is a field of the inode itself. */
    predicate IsRoot() {
      Direct? || Indirect? || Double?
    }

    /** The slot that points to the table block in which this slot lies. */
    function Parent(): Slot
      requires !IsRoot()
    {
      match this
      case IndirectEntry(_) => Indirect
      case Table(_) => Double
      case TableEntry(p, _) => Table(p)
    }

    function Index(): nat
      requires !IsRoot()
    {
      match this
      case IndirectEntry(i) => i
      case Table(p) => p
      case TableEntry(_, q) => q
    }
  }

  /** The slot that maps logical block n. */
  function SlotOf(n: nat): (s: Slot)
    requires n < MAX_FILE_BLOCKS
    ensures s.Valid() && !s.IsTable()
  {
    if n < NR_DIRECT_BLOCKS then Direct(n)
    else if n < DOUBLE_START then IndirectEntry(n - NR_DIRECT_BLOCKS)
    else TableEntry((n - DOUBLE_START) / NR_INDIRECT_BLOCKS, (n - DOUBLE_START) % NR_INDIRECT_BLOCKS)
  }

  /** Entry k of the table in block b; a missing table reads as empty. */
  function WordAt(disk: seq<Block>, b: int, k: nat): int {
    if 0 < b < |disk| && k < NR_INDIRECT_BLOCKS then Word(disk[b], k) else 0
  }

  /** The block pointer in slot s. */
  function Ptr(disk: seq<Block>, d: DInode, s: Slot): int {
    match s
    case Direct(i) => if i < |d.iBlockNr| then d.iBlockNr[i] else 0
    case Indirect => d.iIndirect
    case IndirectEntry(i) => WordAt(disk, d.iIndirect, i)
    case Double => d.iDindirect
    case Table(p) => WordAt(disk, d.iDindirect, p)
    case TableEntry(p, q) => WordAt(disk, WordAt(disk, d.iDindirect, p), q)
  }

  /** `own` is exactly the map from the blocks that the inode points to, to the one slot that points to each. */
  ghost predicate IsTree(disk: seq<Block>, d: DInode, own: map<int, Slot>) {
    |disk| == DEVICE_BLOCKS && |d.iBlockNr| == NR_DIRECT_BLOCKS &&
    (forall s: Slot :: s.Valid() && Ptr(disk, d, s) != 0 ==> Ptr(disk, d, s) in own && own[Ptr(disk, d, s)] == s) &&
    (forall b :: b in own ==> DATA_BLOCKS_START <= b < DEVICE_BLOCKS && own[b].Valid() && Ptr(disk, d, own[b]) == b)
  }

  /** The physical block of logical block n, or 0 for a hole. */
  function PhysicalBlock(disk: seq<Block>, d: DInode, n: nat): int
    requires n < MAX_FILE_BLOCKS
  {
    Ptr(disk, d, SlotOf(n))
  }

  /** The contents of logical block n; a hole reads as zeros. */
  function BlockBytes(disk: seq<Block>, d: DInode, n: nat): Block
    requires n < MAX_FILE_BLOCKS
  {
    var p := PhysicalBlock(disk, d, n);
    if 0 < p < |disk| then disk[p] else ZeroBlock()
  }

  /** Block n is a hole because its second-level table is missing, although the double indirect block is there. */
  predicate MissingTable(disk: seq<Block>, d: DInode, n: nat) {
    DOUBLE_START <= n < MAX_FILE_BLOCKS && d.iDindirect > 0 &&
    WordAt(disk, d.iDindirect, (n - DOUBLE_START) / NR_INDIRECT_BLOCKS) == 0
  }

  // ---- Storing one pointer ----

  /** Stores pointer p, to a block that is all zeros, in slot s. */
  function AttachInode(d: DInode, s: Slot, p: nat): DInode {
    match s
    case Direct(i) => if i < |d.iBlockNr| then d.(iBlockNr := d.iBlockNr[i := p]) else d
    case Indirect => d.(iIndirect := p)
    case Double => d.(iDindirect := p)
    case _ => d
  }

  function AttachDisk(disk: seq<Block>, d: DInode, s: Slot, p: nat): seq<Block>
    requires p < |disk| && s.Valid()
  {
    var disk1 := disk[p := ZeroBlock()];
    if s.IsRoot() then disk1 else
    var t := Ptr(disk, d, s.Parent());
    if 0 < t < |disk| then disk1[t := PutWord(disk[t], s.Index(), p)] else disk1
  }

  /** Storing the pointer to a block that nothing points to changes that slot and no other. */
  lemma Attach(disk: seq<Block>, d: DInode, own: map<int, Slot>, s: Slot, p: nat)
    requires IsTree(disk, d, own) && s.Valid() && Ptr(disk, d, s) == 0
    requires s.IsRoot() || Ptr(disk, d, s.Parent()) != 0
    requires DATA_BLOCKS_START <= p < DEVICE_BLOCKS && p !in own
    ensures var disk', d' := AttachDisk(disk, d, s, p), AttachInode(d, s, p);
            IsTree(disk', d', own[p := s]) &&
            forall r: Slot :: r.Valid() ==> Ptr(disk', d', r) == if r == s then p else Ptr(disk, d, r)
  {
    var disk', d' := AttachDisk(disk, d, s, p), AttachInode(d, s, p);
    forall r: Slot | r.Valid() ensures Ptr(disk', d', r) == if r == s then p else Ptr(disk, d, r) {
      AttachPtr(disk, d, own, s, p, r);
    }
  }

  lemma AttachPtr(disk: seq<Block>, d: DInode, own: map<int, Slot>, s: Slot, p: nat, r: Slot)
    requires IsTree(disk, d, own) && s.Valid() && Ptr(disk, d, s) == 0
    requires s.IsRoot() || Ptr(disk, d, s.Parent()) != 0
    requires DATA_BLOCKS_START <= p < DEVICE_BLOCKS && p !in own && r.Valid()
    ensures Ptr(AttachDisk(disk, d, s, p), AttachInode(d, s, p), r) == if r == s then p else Ptr(disk, d, r)
    decreases if r.IsRoot() then 0 else if r.TableEntry? then 2 else 1
  {
    var disk', d' := AttachDisk(disk, d, s, p), AttachInode(d, s, p);
    if !r.IsRoot() {
      AttachPtr(disk, d, own, s, p, r.Parent());
      var t := Ptr(disk, d, r.Parent());
      if r.Parent() == s {
        ZeroWord(ZeroBlock(), r.Index());
      } else if t != 0 {
        assert t in own && own[t] == r.Parent();
        if !s.IsRoot() && s.Parent() == r.Parent() {
          PutWordThenWord(disk[t], s.Index(), p, r.Index());
        } else {
          assert disk'[t] == disk[t];
        }
      }
    }
  }

  /** The two inodes agree on every pointer field. */
  predicate SamePointers(d: DInode, d': DInode) {
    d'.iBlockNr == d.iBlockNr && d'.iIndirect == d.iIndirect && d'.iDindirect == d.iDindirect
  }

  /** Only the pointer fields and the table blocks of the tree matter for its pointers. */
  lemma PtrFrame(disk: seq<Block>, d: DInode, own: map<int, Slot>, disk': seq<Block>, d': DInode)
    requires IsTree(disk, d, own) && |disk'| == |disk| && SamePointers(d, d')
    requires forall b :: b in own && own[b].IsTable() ==> SameWords(disk[b], disk'[b])
    ensures forall s: Slot :: s.Valid() ==> Ptr(disk', d', s) == Ptr(disk, d, s)
    ensures IsTree(disk', d', own)
  {
    forall s: Slot | s.Valid() ensures Ptr(disk', d', s) == Ptr(disk, d, s) {
      if !s.IsRoot() {
        var t := Ptr(disk, d, s.Parent());
        assert t != 0 ==> own[t] == s.Parent();
        if s.TableEntry? {
          var u := Ptr(disk, d, Double);
          assert u != 0 ==> own[u] == Double;
        }
      }
    }
  }

  // ---- Mapping one more logical block ----

  /** The path of slots from the inode to logical block n. */
  predicate OnPath(s: Slot, n: nat)
    requires n < MAX_FILE_BLOCKS
  {
    s == SlotOf(n) ||
    (NR_DIRECT_BLOCKS <= n < DOUBLE_START && s == Indirect) ||
    (DOUBLE_START <= n && (s == Double || s == SlotOf(n).Parent()))
  }

  /** The number of blocks that mapping the hole n takes: the data block and the missing tables. */
  function Need(disk: seq<Block>, d: DInode, n: nat): nat
    requires n < MAX_FILE_BLOCKS
  {
    if n < NR_DIRECT_BLOCKS then 1
    else if n < DOUBLE_START then (if d.iIndirect == 0 then 2 else 1)
    else if d.iDindirect == 0 then 3
    else if Ptr(disk, d, SlotOf(n).Parent()) == 0 then 2
    else 1
  }

  /** From one state to the next, the blocks of an inode only grew, and only by the path to logical block n. */
  ghost predicate Grown(disk: seq<Block>, d: DInode, own: map<int, Slot>,
                        disk': seq<Block>, d': DInode, own': map<int, Slot>, n: nat)
    requires n < MAX_FILE_BLOCKS
  {
    IsTree(disk', d', own') && |disk| == |disk'| &&
    own'.Keys >= own.Keys && (forall b :: b in own ==> own'[b] == own[b]) &&
    (forall b :: b in own' && b !in own ==> OnPath(own'[b], n)) &&
    (forall s: Slot :: s.Valid() && (Ptr(disk, d, s) != 0 || !OnPath(s, n)) ==> Ptr(disk', d', s) == Ptr(disk, d, s))
  }

  /** What the inode owns once block p is stored in slot s; 0 stands for no block. */
  function Own(own: map<int, Slot>, p: nat, s: Slot): map<int, Slot> {
    if p == 0 then own else own[p := s]
  }

  /** Stores block p in slot s, unless p is 0. */
  function AttachInode0(d: DInode, s: Slot, p: nat): DInode {
    if p == 0 then d else AttachInode(d, s, p)
  }

  function AttachDisk0(disk: seq<Block>, d: DInode, s: Slot, p: nat): seq<Block>
    requires p < |disk| && s.Valid()
  {
    if p == 0 then disk else AttachDisk(disk, d, s, p)
  }

  /** A block for slot s that the inode can be given: 0 if the slot is taken, and else a block that it does not own. */
  ghost predicate Fits(disk: seq<Block>, d: DInode, own: map<int, Slot>, s: Slot, p: nat) {
    s.Valid() &&
    if Ptr(disk, d, s) != 0 then p == 0
    else DATA_BLOCKS_START <= p < DEVICE_BLOCKS && p !in own && (s.IsRoot() || Ptr(disk, d, s.Parent()) != 0)
  }

  lemma GrownTransitive(disk: seq<Block>, d: DInode, own: map<int, Slot>,
                        disk1: seq<Block>, d1: DInode, own1: map<int, Slot>,
                        disk2: seq<Block>, d2: DInode, own2: map<int, Slot>, n: nat)
    requires n < MAX_FILE_BLOCKS
    requires Grown(disk, d, own, disk1, d1, own1, n) && Grown(disk1, d1, own1, disk2, d2, own2, n)
    ensures Grown(disk, d, own, disk2, d2, own2, n)
  {
  }

  /** One more block on the path to n: the slot gets the pointer, its table block one word, and a new table starts
      out empty. */
  lemma GrownAttach(disk: seq<Block>, d: DInode, own: map<int, Slot>, s: Slot, p: nat, n: nat)
    returns (disk': seq<Block>, d': DInode)
    requires n < MAX_FILE_BLOCKS && OnPath(s, n)
    requires IsTree(disk, d, own) && Fits(disk, d, own, s, p)
    ensures d' == AttachInode0(d, s, p)
    ensures Grown(disk, d, own, disk', d', Own(own, p, s), n)
    ensures forall r: Slot :: r.Valid() ==> Ptr(disk', d', r) == if r == s && p != 0 then p else Ptr(disk, d, r)
    ensures p != 0 ==> disk'[p] == ZeroBlock()
    ensures forall b: nat :: b < |disk| && b != p && (p == 0 || s.IsRoot() || b != Ptr(disk, d, s.Parent())) ==>
              disk'[b] == disk[b]
    ensures p != 0 && !s.IsRoot() ==>
              var t := Ptr(disk, d, s.Parent());
              0 < t < |disk| && IsPut(disk[t], s.Index(), p, disk'[t])
  {
    disk', d' := AttachDisk0(disk, d, s, p), AttachInode0(d, s, p);
    if p != 0 {
      Attach(disk, d, own, s, p);
      if !s.IsRoot() {
        assert Ptr(disk, d, s.Parent()) in own;
        PutWordIsPut(disk[Ptr(disk, d, s.Parent())], s.Index(), p);
      }
    }
  }

  lemma GrownFrame(disk: seq<Block>, d: DInode, own: map<int, Slot>, disk': seq<Block>, d': DInode, n: nat)
    requires n < MAX_FILE_BLOCKS
    requires IsTree(disk, d, own) && |disk'| == |disk| && SamePointers(d, d')
    requires forall b :: b in own && own[b].IsTable() ==> SameWords(disk[b], disk'[b])
    ensures Grown(disk, d, own, disk', d', own, n)
  {
    PtrFrame(disk, d, own, disk', d');
  }

  /** A block p in slot s that is empty and has no children yet: the pointers of all logical blocks stay as they
      were. */
  lemma GrownTable(disk: seq<Block>, d: DInode, own: map<int, Slot>, s: Slot, p: nat, n: nat, disk': seq<Block>,
                   d': DInode)
    requires n < MAX_FILE_BLOCKS && OnPath(s, n) && s.IsTable()
    requires IsTree(disk, d, own) && Fits(disk, d, own, s, p) && p != 0
    requires |disk'| == |disk| && SamePointers(AttachInode(d, s, p), d') && disk'[p] == ZeroBlock()
    requires !s.IsRoot() ==>
               var t := Ptr(disk, d, s.Parent());
               0 < t < |disk| && IsPut(disk[t], s.Index(), p, disk'[t])
    requires forall b :: b in own && own[b].IsTable() && (s.IsRoot() || b != Ptr(disk, d, s.Parent())) ==>
               disk'[b] == disk[b]
    ensures Ptr(disk', d', s) == p
    ensures forall m :: 0 <= m < MAX_FILE_BLOCKS ==> PhysicalBlock(disk', d', m) == PhysicalBlock(disk, d, m)
  {
    var disk1, d1 := GrownAttach(disk, d, own, s, p, n);
    PtrFrame(disk1, d1, own[p := s], disk', d');
  }

  lemma GrowDirect(disk: seq<Block>, d: DInode, own: map<int, Slot>, n: nat, p: nat, disk': seq<Block>, d': DInode)
    requires IsTree(disk, d, own) && n < NR_DIRECT_BLOCKS
    requires p != 0 && Fits(disk, d, own, Direct(n), p)
    requires |disk'| == |disk| && SamePointers(AttachInode(d, Direct(n), p), d')
    requires forall b :: b in own && own[b].IsTable() ==> disk'[b] == disk[b]
    ensures Grown(disk, d, own, disk', d', own[p := Direct(n)], n)
  {
    var disk1, d1 := GrownAttach(disk, d, own, Direct(n), p, n);
    GrownFrame(disk1, d1, own[p := Direct(n)], disk', d', n);
    GrownTransitive(disk, d, own, disk1, d1, own[p := Direct(n)], disk', d', own[p := Direct(n)], n);
  }

  /** The state after mapping a block in the indirect range; p1 is the new indirect block, or 0 if there was one. */
  lemma GrowIndirect(disk: seq<Block>, d: DInode, own: map<int, Slot>, n: nat, p1: nat, p: nat,
                     disk': seq<Block>, d': DInode)
    requires IsTree(disk, d, own) && NR_DIRECT_BLOCKS <= n < DOUBLE_START && PhysicalBlock(disk, d, n) == 0
    requires Fits(disk, d, own, Indirect, p1)
    requires DATA_BLOCKS_START <= p < DEVICE_BLOCKS && p !in own && p != p1
    requires |disk'| == |disk| && SamePointers(AttachInode0(d, Indirect, p1), d')
    requires 0 < d'.iIndirect < |disk|
    requires IsPut(if p1 == 0 then disk[d'.iIndirect] else ZeroBlock(), n - NR_DIRECT_BLOCKS, p, disk'[d'.iIndirect])
    requires forall b :: b in own && own[b].IsTable() && b != d'.iIndirect ==> disk'[b] == disk[b]
    ensures Grown(disk, d, own, disk', d', Own(own, p1, Indirect)[p := SlotOf(n)], n)
  {
    var s, own1 := SlotOf(n), Own(own, p1, Indirect);
    var disk1, d1 := GrownAttach(disk, d, own, Indirect, p1, n);
    var disk2, d2 := GrownAttach(disk1, d1, own1, s, p, n);
    GrownTransitive(disk, d, own, disk1, d1, own1, disk2, d2, own1[p := s], n);
    GrownFrame(disk2, d2, own1[p := s], disk', d', n);
    GrownTransitive(disk, d, own, disk2, d2, own1[p := s], disk', d', own1[p := s], n);
  }

  /** The double indirect block and the second-level table as testfs_allocate_block leaves them. */
  ghost predicate DoubleWritten(disk: seq<Block>, d: DInode, n: nat, p1: nat, p2: nat, p: nat, disk': seq<Block>)
    requires DOUBLE_START <= n < MAX_FILE_BLOCKS && |disk| == |disk'|
  {
    var u, t := if p1 == 0 then d.iDindirect else p1, if p2 == 0 then Ptr(disk, d, SlotOf(n).Parent()) else p2;
    0 < u < |disk| && 0 < t < |disk| &&
    var top: Block := if p1 == 0 then disk[u] else ZeroBlock();
    var table: Block := if p2 == 0 then disk[t] else ZeroBlock();
    (if p2 == 0 then SameWords(top, disk'[u]) else IsPut(top, SlotOf(n).p, p2, disk'[u])) &&
    IsPut(table, SlotOf(n).q, p, disk'[t])
  }

  ghost predicate OtherTablesKept(disk: seq<Block>, own: map<int, Slot>, n: nat, disk': seq<Block>)
    requires DOUBLE_START <= n < MAX_FILE_BLOCKS && |disk| == |disk'|
  {
    forall b :: b in own && own[b].IsTable() && own[b] != Double && own[b] != SlotOf(n).Parent() && 0 <= b < |disk| ==>
      SameWords(disk[b], disk'[b])
  }

  /** Blocks for the double indirect block (p1), the second-level table (p2) and the data block (p) of n; 0 for those
      that are there. */
  ghost predicate DoubleFits(disk: seq<Block>, d: DInode, own: map<int, Slot>, n: nat, p1: nat, p2: nat, p: nat)
    requires DOUBLE_START <= n < MAX_FILE_BLOCKS
  {
    PhysicalBlock(disk, d, n) == 0 && Fits(disk, d, own, Double, p1) &&
    (if Ptr(disk, d, SlotOf(n).Parent()) != 0 then p2 == 0
     else DATA_BLOCKS_START <= p2 < DEVICE_BLOCKS && p2 !in own && p2 != p1) &&
    DATA_BLOCKS_START <= p < DEVICE_BLOCKS && p !in own && p != p1 && p != p2
  }

  function DoubleOwn(own: map<int, Slot>, n: nat, p1: nat, p2: nat, p: nat): map<int, Slot>
    requires DOUBLE_START <= n < MAX_FILE_BLOCKS
  {
    Own(Own(own, p1, Double), p2, SlotOf(n).Parent())[p := SlotOf(n)]
  }

  /** The two tables on the path to n, with the new ones in place. */
  lemma AttachTables(disk: seq<Block>, d: DInode, own: map<int, Slot>, n: nat, p1: nat, p2: nat)
    returns (disk2: seq<Block>)
    requires IsTree(disk, d, own) && DOUBLE_START <= n < MAX_FILE_BLOCKS
    requires Fits(disk, d, own, Double, p1)
    requires if Ptr(disk, d, SlotOf(n).Parent()) != 0 then p2 == 0
             else DATA_BLOCKS_START <= p2 < DEVICE_BLOCKS && p2 !in own && p2 != p1
    ensures Grown(disk, d, own, disk2, AttachInode0(d, Double, p1), Own(Own(own, p1, Double), p2, SlotOf(n).Parent()),
                  n)
    ensures PhysicalBlock(disk2, AttachInode0(d, Double, p1), n) == PhysicalBlock(disk, d, n)
    ensures var u, t := if p1 == 0 then d.iDindirect else p1, if p2 == 0 then Ptr(disk, d, SlotOf(n).Parent()) else p2;
            Ptr(disk2, AttachInode0(d, Double, p1), SlotOf(n).Parent()) == t &&
            0 < u < |disk| && 0 < t < |disk| && t != u &&
            var top: Block := if p1 == 0 then disk[u] else ZeroBlock();
            (if p2 == 0 then SameWords(top, disk2[u]) else IsPut(top, SlotOf(n).p, p2, disk2[u])) &&
            (p2 != 0 ==> disk2[t] == ZeroBlock()) &&
            forall b: nat :: b < |disk| && b != p1 && b != p2 && b != u ==> disk2[b] == disk[b]
  {
    var s, own1 := SlotOf(n), Own(own, p1, Double);
    var disk1, d1 := GrownAttach(disk, d, own, Double, p1, n);
    var d2;
    disk2, d2 := GrownAttach(disk1, d1, own1, s.Parent(), p2, n);
    GrownTransitive(disk, d, own, disk1, d1, own1, disk2, d2, Own(own1, p2, s.Parent()), n);
    assert Ptr(disk2, d2, Double) != 0 && Ptr(disk2, d2, s.Parent()) != 0;
  }

  lemma AttachDouble(disk: seq<Block>, d: DInode, own: map<int, Slot>, n: nat, p1: nat, p2: nat, p: nat)
    returns (disk3: seq<Block>)
    requires IsTree(disk, d, own) && DOUBLE_START <= n < MAX_FILE_BLOCKS
    requires DoubleFits(disk, d, own, n, p1, p2, p)
    ensures Grown(disk, d, own, disk3, AttachInode0(d, Double, p1), DoubleOwn(own, n, p1, p2, p), n)
    ensures DoubleWritten(disk, d, n, p1, p2, p, disk3) && OtherTablesKept(disk, own, n, disk3)
  {
    var s, own2 := SlotOf(n), Own(Own(own, p1, Double), p2, SlotOf(n).Parent());
    var d2 := AttachInode0(d, Double, p1);
    var disk2 := AttachTables(disk, d, own, n, p1, p2);
    var d3;
    disk3, d3 := GrownAttach(disk2, d2, own2, s, p, n);
    GrownTransitive(disk, d, own, disk2, d2, own2, disk3, d3, own2[p := s], n);
  }

  /** The state after mapping a block in the double indirect range. */
  lemma GrowDouble(disk: seq<Block>, d: DInode, own: map<int, Slot>, n: nat, p1: nat, p2: nat, p: nat,
                   disk': seq<Block>, d': DInode)
    requires IsTree(disk, d, own) && DOUBLE_START <= n < MAX_FILE_BLOCKS
    requires DoubleFits(disk, d, own, n, p1, p2, p)
    requires |disk'| == |disk| && SamePointers(AttachInode0(d, Double, p1), d')
    requires DoubleWritten(disk, d, n, p1, p2, p, disk') && OtherTablesKept(disk, own, n, disk')
    ensures Grown(disk, d, own, disk', d', DoubleOwn(own, n, p1, p2, p), n)
  {
    var disk3 := AttachDouble(disk, d, own, n, p1, p2, p);
    var d3, own3 := AttachInode0(d, Double, p1), DoubleOwn(own, n, p1, p2, p);
    GrownFrame(disk3, d3, own3, disk', d', n);
    GrownTransitive(disk, d, own, disk3, d3, own3, disk', d', own3, n);
  }

  // ---- The contents of the file ----

  lemma SlotOfInjective(m: nat, n: nat)
    requires m < MAX_FILE_BLOCKS && n < MAX_FILE_BLOCKS && SlotOf(m) == SlotOf(n)
    ensures m == n
  {
  }

  /** Growing the tree leaves the contents of every other logical block alone, as long as its data blocks are. */
  lemma GrownBytes(disk: seq<Block>, d: DInode, own: map<int, Slot>, disk': seq<Block>, d': DInode,
                   own': map<int, Slot>, n: nat, m: nat)
    requires n < MAX_FILE_BLOCKS && m < MAX_FILE_BLOCKS && m != n
    requires IsTree(disk, d, own) && Grown(disk, d, own, disk', d', own', n)
    requires forall b :: b in own && !own[b].IsTable() ==> disk'[b] == disk[b]
    ensures BlockBytes(disk', d', m) == BlockBytes(disk, d, m)
  {
    var s := SlotOf(m);
    if OnPath(s, n) {
      SlotOfInjective(m, n);
    }
    if Ptr(disk, d, s) != 0 {
      assert own[Ptr(disk, d, s)] == s;
    }
  }

  /** Overwriting the data block of logical block n changes the contents of that block and no other. */
  lemma OverwriteBytes(disk: seq<Block>, d: DInode, own: map<int, Slot>, n: nat, p: int, block: Block, m: nat)
    requires n < MAX_FILE_BLOCKS && m < MAX_FILE_BLOCKS
    requires IsTree(disk, d, own) && p in own && own[p] == SlotOf(n)
    ensures IsTree(disk[p := block], d, own)
    ensures BlockBytes(disk[p := block], d, m) == if m == n then block else BlockBytes(disk, d, m)
  {
    PtrFrame(disk, d, own, disk[p := block], d);
    var q := PhysicalBlock(disk, d, m);
    if q != 0 {
      assert own[q] == SlotOf(m);
      if m != n && q == p {
        SlotOfInjective(m, n);
      }
    }
  }
}
