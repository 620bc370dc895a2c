/** The tree that the directories form. */
module Trees {
  import opened Bytes
  import opened Dirents

  function Dot(): seq<Byte> {
    [46]
  }

  function DotDot(): seq<Byte> {
    [46, 46]
  }

  /** The records of each directory and the other inodes; `place` is the directory and the index of the one entry of
      each inode but the root, and `depth` its distance from the root. */
  datatype Tree = Tree(recs: map<int, seq<Rec>>, files: set<int>, place: map<int, (int, int)>, depth: map<int, int>) {
    ghost function Rank(x: int): nat {
      if x in depth && depth[x] >= 0 then depth[x] else 0
    }

    /** Directory d starts with "." and "..", and ".." is the directory in which d has its entry. */
    ghost predicate DirOk(d: int)
      requires d in recs
    {
      var r := recs[d];
      |r| >= 2 && r[0] == Rec(d, Dot()) && r[1].Live() && r[1].name == DotDot() && d >= 0 && Unique(r) &&
      r[1].inodeNr == (if d == 0 then 0 else if d in place then place[d].0 else -1) &&
      forall i :: 2 <= i < |r| && r[i].Live() ==> r[i].inodeNr in place && place[r[i].inodeNr] == (d, i)
    }

    ghost predicate PlaceOk(nr: int)
      requires nr in place
    {
      var (d, i) := place[nr];
      d in recs && 2 <= i < |recs[d]| && recs[d][i].inodeNr == nr >= 0 &&
      nr in depth && d in depth && depth[nr] == depth[d] + 1
    }

    ghost predicate Ok() {
      0 in recs && 0 in depth && depth[0] == 0 && recs.Keys !! files && 0 !in place &&
      (forall nr :: nr in place || nr == 0 <==> nr in recs || nr in files) &&
      (forall nr :: nr in depth <==> nr in place || nr == 0) && (forall nr :: nr in depth ==> depth[nr] >= 0) &&
      (forall d :: d in recs ==> DirOk(d)) && (forall nr :: nr in place ==> PlaceOk(nr))
    }

    /** The directory that ".." of directory d names */
    ghost function Parent(d: int): int
      requires d in recs && |recs[d]| >= 2
    {
      recs[d][1].inodeNr
    }

    /** Directory d has an entry besides "." and "..". */
    ghost predicate Occupied(d: int) {
      d in recs && exists i :: 2 <= i < |recs[d]| && recs[d][i].Live()
    }

    /** A new file or directory nr called `name` in directory d */
    ghost function Created(d: int, name: seq<Byte>, nr: int, isDir: bool): Tree
      requires d in recs && d in depth
    {
      var recs1 := recs[d := Added(recs[d], name, nr)];
      Tree(if isDir then recs1[nr := NewDir(nr, d)] else recs1, if isDir then files else files + {nr},
           place[nr := (d, StopOf(recs[d], name, 0))], depth[nr := depth[d] + 1])
    }

    /** The entry `name` of directory d gone, with its inode */
    ghost function Removed(d: int, name: seq<Byte>): Tree
      requires d in recs && IndexOf(recs[d], name, 0) < |recs[d]|
    {
      var i := IndexOf(recs[d], name, 0);
      var nr := recs[d][i].inodeNr;
      Tree(recs[d := recs[d][i := Rec(INVALID_INODE_NR, name)]] - {nr}, files - {nr}, place - {nr}, depth - {nr})
    }
  }

  function NewDir(nr: int, parent: int): seq<Rec> {
    [Rec(nr, Dot()), Rec(parent, DotDot())]
  }

  lemma DotNames(t: Tree, d: int, name: seq<Byte>)
    requires t.Ok() && d in t.recs
    ensures name == Dot() ==> IndexOf(t.recs[d], name, 0) == 0
    ensures name == DotDot() ==> IndexOf(t.recs[d], name, 0) == 1
    ensures name != Dot() && name != DotDot() ==> IndexOf(t.recs[d], name, 0) >= 2
  {
    assert t.DirOk(d);
    if name == Dot() {
      FirstIndex(t.recs[d], name, 0);
    } else if name == DotDot() {
      FirstIndex(t.recs[d], name, 1);
    }
  }

  // ---- What Ok means ----

  /** Every inode but the root has exactly one live entry besides "." and "..", and the root has none. */
  lemma OneEntry(t: Tree, d: int, i: int, e: int, j: int)
    requires t.Ok() && d in t.recs && 2 <= i < |t.recs[d]| && t.recs[d][i].Live()
    requires e in t.recs && 2 <= j < |t.recs[e]| && t.recs[e][j].Live()
    ensures t.recs[d][i].inodeNr != 0
    ensures t.recs[d][i].inodeNr == t.recs[e][j].inodeNr <==> d == e && i == j
    ensures t.recs[d][i].inodeNr in t.recs || t.recs[d][i].inodeNr in t.files
  {
    assert t.DirOk(d) && t.DirOk(e);
  }

  lemma HasEntry(t: Tree, nr: int)
    requires t.Ok() && (nr in t.recs || nr in t.files) && nr != 0
    ensures exists d, i :: d in t.recs && 2 <= i < |t.recs[d]| && t.recs[d][i].inodeNr == nr >= 0
  {
    assert t.PlaceOk(nr);
    var (d, i) := t.place[nr];
    assert t.recs[d][i].inodeNr == nr;
  }

  /** n times ".." from directory d */
  ghost function Up(t: Tree, d: int, n: nat): int
    requires t.Ok() && d in t.recs
    ensures Up(t, d, n) in t.recs
    decreases n
  {
    if n == 0 then d else
    assert t.DirOk(d);
    assert d != 0 ==> t.PlaceOk(d);
    Up(t, t.Parent(d), n - 1)
  }

  /** From every directory, as many steps of ".." as its depth lead to the root. */
  lemma {:induction false} UpToRoot(t: Tree, d: int)
    requires t.Ok() && d in t.recs
    ensures t.depth[d] >= 0 && Up(t, d, t.depth[d]) == 0
    decreases t.Rank(d)
  {
    assert t.DirOk(d);
    if d != 0 {
      assert t.PlaceOk(d);
      UpToRoot(t, t.Parent(d));
    }
  }

  lemma InTree(t: Tree, d: int)
    requires t.Ok() && d in t.recs
    ensures d >= 0 && d in t.depth && |t.recs[d]| >= 2
  {
    assert t.DirOk(d);
  }

  // ---- What the operations keep ----

  /** The directory with a new entry has the same records but for that one, which is not one of the first two. */
  lemma AddedRecs(r: seq<Rec>, name: seq<Byte>, nr: int)
    requires |r| >= 2 && r[0].Live() && r[1].Live() && name !in Names(r)
    ensures var r', i := Added(r, name, nr), StopOf(r, name, 0);
            2 <= i < |r'| && |r| <= |r'| && forall k :: 0 <= k < |r'| ==>
              if k == i then r'[k] == Rec(nr, name) else k < |r| && r'[k] == r[k]
  {
    LookupIsMap(r, name);
    assert !r[0].Named(name) && !r[1].Named(name);
  }

  lemma CreatedDir(t: Tree, d: int, name: seq<Byte>, nr: int, isDir: bool, c: int)
    requires t.Ok() && d in t.recs && name !in Names(t.recs[d]) && nr >= 0 && nr !in t.recs && nr !in t.files
    requires c in t.Created(d, name, nr, isDir).recs
    ensures t.Created(d, name, nr, isDir).DirOk(c)
  {
    hide Names;
    hide Added;
    hide Unique;
    hide IndexOf;
    hide StopOf;
    var t' := t.Created(d, name, nr, isDir);
    if c == d {
      assert t.DirOk(d);
      AddIsInsert(t.recs[d], name, nr);
      AddedRecs(t.recs[d], name, nr);
    } else if c in t.recs {
      assert t.DirOk(c) && t'.recs[c] == t.recs[c];
    } else {
      NewDirUnique(nr, d);
    }
  }

  lemma NewDirUnique(nr: int, parent: int)
    ensures Unique(NewDir(nr, parent))
  {
  }

  lemma CreatedPlace(t: Tree, d: int, name: seq<Byte>, nr: int, isDir: bool, m: int)
    requires t.Ok() && d in t.recs && name !in Names(t.recs[d]) && nr >= 0 && nr !in t.recs && nr !in t.files
    requires m in t.Created(d, name, nr, isDir).place
    ensures t.Created(d, name, nr, isDir).PlaceOk(m)
  {
    hide Names;
    assert t.DirOk(d);
    AddKeepsUnique(t.recs[d], name, nr);
    if m != nr {
      assert t.PlaceOk(m);
      var (e, i) := t.place[m];
      assert e in t.recs && t.DirOk(e) && t.recs[e][i].Live();
    }
  }

  lemma DirUnique(t: Tree, d: int)
    requires t.Ok() && d in t.recs
    ensures Unique(t.recs[d])
  {
    assert t.DirOk(d);
  }

  lemma CreatedOk(t: Tree, d: int, name: seq<Byte>, nr: int, isDir: bool)
    requires t.Ok() && d in t.recs && name !in Names(t.recs[d]) && nr >= 0 && nr !in t.recs && nr !in t.files
    ensures t.Created(d, name, nr, isDir).Ok()
    ensures var i := StopOf(t.recs[d], name, 0); i < |t.recs[d]| ==> !t.recs[d][i].Live()
  {
    hide Tree.DirOk;
    hide Tree.PlaceOk;
    hide Names;
    hide StopOf;
    DirUnique(t, d);
    AddKeepsUnique(t.recs[d], name, nr);
    var t' := t.Created(d, name, nr, isDir);
    forall c | c in t'.recs ensures t'.DirOk(c) {
      CreatedDir(t, d, name, nr, isDir, c);
    }
    forall m | m in t'.place ensures t'.PlaceOk(m) {
      CreatedPlace(t, d, name, nr, isDir, m);
    }
  }

  /** A creation gives its directory the one name more, makes what was asked for, with "." and ".." if this is a
      directory, and leaves all the rest alone. */
  lemma CreatedExact(t: Tree, d: int, name: seq<Byte>, nr: int, isDir: bool)
    requires t.Ok() && d in t.recs && name !in Names(t.recs[d]) && nr >= 0 && nr !in t.recs && nr !in t.files
    ensures var t' := t.Created(d, name, nr, isDir);
            Names(t'.recs[d]) == Names(t.recs[d])[name := nr] &&
            (isDir ==> t'.recs.Keys == t.recs.Keys + {nr} && t'.files == t.files) &&
            (!isDir ==> t'.recs.Keys == t.recs.Keys && t'.files == t.files + {nr}) &&
            (isDir ==> t'.recs[nr] == [Rec(nr, [46]), Rec(d, [46, 46])]) &&
            forall c :: c in t.recs && c != d ==> t'.recs[c] == t.recs[c]
  {
    hide Names;
    hide Added;
    DirUnique(t, d);
    AddIsInsert(t.recs[d], name, nr);
  }

  lemma RemovedDir(t: Tree, d: int, name: seq<Byte>, c: int)
    requires t.Ok() && d in t.recs && name in Names(t.recs[d]) && name != Dot() && name != DotDot()
    requires IndexOf(t.recs[d], name, 0) < |t.recs[d]|
    requires !t.Occupied(t.recs[d][IndexOf(t.recs[d], name, 0)].inodeNr)
    requires c in t.Removed(d, name).recs
    ensures t.Removed(d, name).DirOk(c)
  {
    hide Names;
    hide IndexOf;
    hide Unique;
    DotNames(t, d, name);
    if c == d {
      assert t.DirOk(d);
      RemoveIsDelete(t.recs[d], name);
      if c != 0 {
        assert t.PlaceOk(c);
      }
    } else {
      assert t.DirOk(d) && t.DirOk(c);
      if c != 0 {
        assert t.PlaceOk(c);
      }
    }
  }

  lemma RemovedPlace(t: Tree, d: int, name: seq<Byte>, m: int)
    requires t.Ok() && d in t.recs && name in Names(t.recs[d]) && name != Dot() && name != DotDot()
    requires IndexOf(t.recs[d], name, 0) < |t.recs[d]|
    requires !t.Occupied(t.recs[d][IndexOf(t.recs[d], name, 0)].inodeNr)
    requires m in t.Removed(d, name).place
    ensures t.Removed(d, name).PlaceOk(m)
  {
    hide Names;
    assert t.DirOk(d);
    DotNames(t, d, name);
    assert t.PlaceOk(m);
  }

  lemma RemovedOk(t: Tree, d: int, name: seq<Byte>)
    requires t.Ok() && d in t.recs && name in Names(t.recs[d]) && name != Dot() && name != DotDot()
    requires IndexOf(t.recs[d], name, 0) < |t.recs[d]|
    requires !t.Occupied(t.recs[d][IndexOf(t.recs[d], name, 0)].inodeNr)
    ensures t.Removed(d, name).Ok() && d in t.Removed(d, name).recs
  {
    hide Names;
    var t' := t.Removed(d, name);
    var nr := t.recs[d][IndexOf(t.recs[d], name, 0)].inodeNr;
    assert t.DirOk(d);
    DotNames(t, d, name);
    assert t.PlaceOk(nr);
    forall c | c in t'.recs ensures t'.DirOk(c) {
      RemovedDir(t, d, name, c);
    }
    forall m | m in t'.place ensures t'.PlaceOk(m) {
      RemovedPlace(t, d, name, m);
    }
  }

  /** A removal takes its name out of the directory, and the inode that the name led to, and leaves all the rest
      alone. */
  lemma RemovedExact(t: Tree, d: int, name: seq<Byte>)
    requires t.Ok() && d in t.recs && name in Names(t.recs[d]) && name != Dot() && name != DotDot()
    requires IndexOf(t.recs[d], name, 0) < |t.recs[d]| && !t.Occupied(Names(t.recs[d])[name])
    ensures var t', nr := t.Removed(d, name), Names(t.recs[d])[name];
            d in t'.recs && Names(t'.recs[d]) == Names(t.recs[d]) - {name} &&
            t'.recs.Keys == t.recs.Keys - {nr} && t'.files == t.files - {nr} && (nr in t.recs || nr in t.files) &&
            forall c :: c in t.recs && c != d && c != nr ==> t'.recs[c] == t.recs[c]
  {
    hide Names;
    hide Unique;
    hide Tree.Ok;
    hide Tree.Occupied;
    LookupIsMap(t.recs[d], name);
    RemovedOk(t, d, name);
    EntryExists(t, d, IndexOf(t.recs[d], name, 0));
    DirUnique(t, d);
    RemoveIsDelete(t.recs[d], name);
  }

  lemma EntryExists(t: Tree, d: int, i: int)
    requires t.Ok() && d in t.recs && 0 <= i < |t.recs[d]| && t.recs[d][i].Live()
    ensures var nr := t.recs[d][i].inodeNr; (nr in t.recs) != (nr in t.files)
  {
    assert t.DirOk(d);
    if d != 0 {
      assert t.PlaceOk(d);
    }
  }

  /** The live records called "." and ".." are the first two. */
  lemma DotEntries(t: Tree, d: int, i: int)
    requires t.Ok() && d in t.recs && 0 <= i < |t.recs[d]| && t.recs[d][i].Live()
    ensures t.recs[d][i].name == Dot() || t.recs[d][i].name == DotDot() <==> i < 2
  {
    assert t.DirOk(d);
  }

  // ---- Paths ----

  /** The inode that a path of names leads to from directory d, or -1 */
  ghost function Walk(t: Tree, d: int, path: seq<seq<Byte>>): int
    decreases |path|
  {
    if path == [] then d
    else if d in t.recs && path[0] in Names(t.recs[d]) then Walk(t, Names(t.recs[d])[path[0]], path[1..])
    else -1
  }

  /** The names on the way from the root to directory d */
  ghost function PathOf(t: Tree, d: int): seq<seq<Byte>>
    requires t.Ok() && d in t.recs
    decreases t.Rank(d)
  {
    if d == 0 then [] else
    assert t.DirOk(d) && t.PlaceOk(d);
    PathOf(t, t.place[d].0) + [t.recs[t.place[d].0][t.place[d].1].name]
  }

  lemma {:induction false} WalkConcat(t: Tree, d: int, path: seq<seq<Byte>>, e: int, name: seq<Byte>)
    requires Walk(t, d, path) == e >= 0 && e in t.recs && name in Names(t.recs[e])
    ensures Walk(t, d, path + [name]) == Names(t.recs[e])[name]
    decreases |path|
  {
    if path == [] {
      assert ([] + [name])[1..] == [];
    } else {
      WalkConcat(t, Names(t.recs[d])[path[0]], path[1..], e, name);
      assert (path + [name])[1..] == path[1..] + [name];
    }
  }

  lemma EntryNamed(t: Tree, d: int, i: int)
    requires t.Ok() && d in t.recs && 0 <= i < |t.recs[d]| && t.recs[d][i].Live()
    ensures var name := t.recs[d][i].name;
            IndexOf(t.recs[d], name, 0) == i && name in Names(t.recs[d]) &&
            Names(t.recs[d])[name] == t.recs[d][i].inodeNr
  {
    assert t.DirOk(d);
    FirstIndex(t.recs[d], t.recs[d][i].name, i);
  }

  /** The path that pwd prints leads from the root back to the directory. */
  lemma {:induction false} PathLeadsBack(t: Tree, d: int)
    requires t.Ok() && d in t.recs
    ensures Walk(t, 0, PathOf(t, d)) == d
    decreases t.Rank(d)
  {
    if d != 0 {
      assert t.DirOk(d) && t.PlaceOk(d);
      var (p, i) := t.place[d];
      assert t.DirOk(p);
      PathLeadsBack(t, p);
      EntryNamed(t, p, i);
      WalkConcat(t, 0, PathOf(t, p), p, t.recs[p][i].name);
    }
  }

  /** Directory d has no record with the number of its subdirectory but the one entry. */
  lemma OnlyEntry(t: Tree, nr: int, k: int)
    requires t.Ok() && nr in t.recs && nr != 0
    ensures nr in t.place && t.place[nr].0 in t.recs
    ensures 0 <= k < |t.recs[t.place[nr].0]| ==> (t.recs[t.place[nr].0][k].inodeNr == nr <==> k == t.place[nr].1)
  {
    assert t.PlaceOk(nr);
    var d := t.place[nr].0;
    assert t.DirOk(d);
    if d != 0 {
      assert t.PlaceOk(d);
    }
  }

  // ---- The inodes below a directory ----

  /** Inode x is a, or lies below it. */
  ghost predicate Under(t: Tree, a: int, x: int)
    requires t.Ok()
    decreases t.Rank(x)
  {
    if x == a then true
    else if x !in t.place then false
    else
      assert t.PlaceOk(x);
      Under(t, a, t.place[x].0)
  }

  /** The index, in directory d, of the entry through which x lies below d */
  ghost function Branch(t: Tree, d: int, x: int): int
    requires t.Ok() && x != d && Under(t, d, x)
    decreases t.Rank(x)
  {
    assert x in t.place && t.PlaceOk(x);
    if t.place[x].0 == d then t.place[x].1 else Branch(t, d, t.place[x].0)
  }

  /** The inodes below directory d, through its entries before i; without `recursive`, these entries only */
  ghost function Shown(t: Tree, d: int, recursive: bool, i: int): set<int>
    requires t.Ok()
  {
    set x | x in t.depth && x != d && Under(t, d, x) && Branch(t, d, x) < i &&
    (recursive || (x in t.place && t.place[x].0 == d))
  }

  lemma {:induction false} BelowIsDeeper(t: Tree, a: int, x: int)
    requires t.Ok() && a in t.depth && x in t.depth && Under(t, a, x)
    ensures t.depth[x] >= t.depth[a] && (t.depth[x] == t.depth[a] ==> x == a)
    decreases t.depth[x]
  {
    if x != a {
      assert t.PlaceOk(x);
      BelowIsDeeper(t, a, t.place[x].0);
    }
  }

  /** What lies below d through entry i is the inode of this entry and what lies below that one. */
  lemma {:induction false} BranchIsChild(t: Tree, d: int, i: int, x: int)
    requires t.Ok() && d in t.recs && 2 <= i < |t.recs[d]| && t.recs[d][i].Live() && x in t.depth
    ensures var c := t.recs[d][i].inodeNr;
            Under(t, c, x) <==> x != d && Under(t, d, x) && Branch(t, d, x) == i
    decreases t.depth[x]
  {
    var c := t.recs[d][i].inodeNr;
    assert t.DirOk(d) && t.PlaceOk(c);
    NotBelowChild(t, c, d);
    if x == c {
      assert Under(t, d, t.place[c].0);
      assert Under(t, d, c) && Branch(t, d, c) == i;
    } else if x == d || x !in t.place {
      assert !Under(t, c, x) && (x == d || !Under(t, d, x));
    } else {
      assert t.PlaceOk(x);
      var p := t.place[x].0;
      BranchIsChild(t, d, i, p);
      assert Under(t, c, x) <==> Under(t, c, p);
      assert Under(t, d, x) <==> Under(t, d, p);
      if p == d {
        assert t.place[x].1 != i;
      } else if Under(t, d, p) {
        assert Branch(t, d, x) == Branch(t, d, p);
      }
    }
  }

  /** A directory does not lie below what has its entry in it. */
  lemma NotBelowChild(t: Tree, c: int, d: int)
    requires t.Ok() && d in t.recs && c in t.place && t.place[c].0 == d
    ensures !Under(t, c, d)
  {
    assert t.PlaceOk(c);
    if Under(t, c, d) {
      BelowIsDeeper(t, c, d);
    }
  }

  lemma {:induction false} BranchIsEntry(t: Tree, d: int, x: int)
    requires t.Ok() && x != d && Under(t, d, x)
    ensures d in t.recs && 2 <= Branch(t, d, x) < |t.recs[d]| && t.recs[d][Branch(t, d, x)].Live()
    decreases t.Rank(x)
  {
    assert x in t.place && t.PlaceOk(x);
    if t.place[x].0 != d {
      BranchIsEntry(t, d, t.place[x].0);
    }
  }

  /** Going on to the next record shows nothing new if that one is a tombstone, "." or "..", and otherwise its inode
      and, if this is a directory, and the listing recursive, everything below it: all of it for the first time. */
  lemma ShownNext(t: Tree, d: int, recursive: bool, i: nat, x: int)
    requires t.Ok() && d in t.recs && i < |t.recs[d]|
    ensures i < 2 || !t.recs[d][i].Live() ==> (x in Shown(t, d, recursive, i + 1) <==> x in Shown(t, d, recursive, i))
    ensures i >= 2 && t.recs[d][i].Live() ==>
              var c := t.recs[d][i].inodeNr;
              var below := if recursive && c in t.recs then Shown(t, c, true, |t.recs[c]|) else {};
              (x in Shown(t, d, recursive, i + 1) <==> x in Shown(t, d, recursive, i) || x == c || x in below) &&
              !(x in Shown(t, d, recursive, i) && (x == c || x in below)) && c !in below
  {
    if x in t.depth && x != d && Under(t, d, x) {
      BranchIsEntry(t, d, x);
    }
    if i >= 2 && t.recs[d][i].Live() && x in t.depth {
      var c := t.recs[d][i].inodeNr;
      BranchIsChild(t, d, i, x);
      assert t.DirOk(d) && t.PlaceOk(c);
      if x != c && Under(t, c, x) {
        BranchIsEntry(t, c, x);
      }
      if x in t.place {
        assert t.PlaceOk(x);
      }
    }
  }

  lemma ShownSets(t: Tree, d: int, recursive: bool, i: nat)
    requires t.Ok() && d in t.recs && i < |t.recs[d]|
    ensures i < 2 || !t.recs[d][i].Live() ==> Shown(t, d, recursive, i + 1) == Shown(t, d, recursive, i)
    ensures i >= 2 && t.recs[d][i].Live() ==>
              var c := t.recs[d][i].inodeNr;
              var below := if recursive && c in t.recs then Shown(t, c, true, |t.recs[c]|) else {};
              Shown(t, d, recursive, i + 1) == Shown(t, d, recursive, i) + {c} + below &&
              Shown(t, d, recursive, i) !! {c} + below && c !in below
  {
    hide Shown;
    forall x {
      ShownNext(t, d, recursive, i, x);
    }
  }

  lemma ShownNothing(t: Tree, d: int, recursive: bool)
    requires t.Ok() && d in t.recs
    ensures Shown(t, d, recursive, 0) == {}
  {
    forall x | x in t.depth && x != d && Under(t, d, x) ensures Branch(t, d, x) >= 0 {
      BranchIsEntry(t, d, x);
    }
  }

  /** What lies below a subdirectory is less than what lies below the directory. */
  lemma {:induction false} BelowChild(t: Tree, d: int, i: int)
    requires t.Ok() && d in t.recs && 2 <= i < |t.recs[d]| && t.recs[d][i].Live() && t.recs[d][i].inodeNr in t.recs
    ensures var c := t.recs[d][i].inodeNr;
            Shown(t, c, true, |t.recs[c]|) < Shown(t, d, true, |t.recs[d]|)
  {
    var c := t.recs[d][i].inodeNr;
    assert t.DirOk(d) && t.PlaceOk(c);
    BranchIsChild(t, d, i, c);
    forall x | x in Shown(t, c, true, |t.recs[c]|) ensures x in Shown(t, d, true, |t.recs[d]|) {
      BranchIsChild(t, d, i, x);
    }
    assert c in Shown(t, d, true, |t.recs[d]|) && c !in Shown(t, c, true, |t.recs[c]|);
  }
}

/** fs/dir.c: the directories, whose bytes are packed records, and the current directory. */
module Directories {
  import opened Bytes
  import opened Dirents
  import opened Trees

  const EINVAL: int := 22
  const ENOTDIR: int := 20
  const ENOTEMPTY: int := 39

  datatype Node = File | Dir(data: seq<Byte>)

  /** The bytes of the directories are the records of the tree. */
  ghost predicate Shows(nodes: map<int, Node>, t: Tree) {
    (forall nr :: nr in nodes <==> nr in t.recs || nr in t.files) &&
    (forall d :: d in t.recs ==> nodes[d].Dir? && Packed(nodes[d].data, t.recs[d])) &&
    (forall nr :: nr in t.files ==> nodes[nr] == File)
  }

  lemma DirNode(nodes: map<int, Node>, t: Tree, d: int)
    requires Shows(nodes, t) && d in t.recs
    ensures d in nodes && nodes[d].Dir? && Packed(nodes[d].data, t.recs[d])
  {
  }

  lemma CreatedShows(nodes: map<int, Node>, t: Tree, d: int, name: seq<Byte>, nr: int, data: seq<Byte>, node: Node)
    requires t.Ok() && Shows(nodes, t) && d in t.recs && nr !in nodes && Packed(data, Added(t.recs[d], name, nr))
    requires node.Dir? ==> Packed(node.data, NewDir(nr, d))
    ensures Shows(nodes[d := Dir(data)][nr := node], t.Created(d, name, nr, node.Dir?))
  {
    hide Packed;
    hide Added;
    hide Tree.DirOk;
    hide Tree.PlaceOk;
  }

  lemma RemovedShows(nodes: map<int, Node>, t: Tree, d: int, name: seq<Byte>, data: seq<Byte>)
    requires t.Ok() && Shows(nodes, t) && d in t.recs && IndexOf(t.recs[d], name, 0) < |t.recs[d]|
    requires Packed(data, t.recs[d][IndexOf(t.recs[d], name, 0) := Rec(INVALID_INODE_NR, name)])
    ensures Shows(nodes[d := Dir(data)] - {t.recs[d][IndexOf(t.recs[d], name, 0)].inodeNr}, t.Removed(d, name))
  {
    hide Packed;
    hide IndexOf;
    hide Tree.DirOk;
    hide Tree.PlaceOk;
  }

  function Slash(): seq<Byte> {
    [47]
  }

  /** A path as pwd prints it */
  function Printed(path: seq<seq<Byte>>): seq<Byte> {
    if path == [] then Slash()
    else if |path| == 1 then Slash() + path[0]
    else Printed(path[..|path| - 1]) + Slash() + path[|path| - 1]
  }

  /** The names of a path, each with a slash before it */
  function Slashed(path: seq<seq<Byte>>): seq<Byte> {
    if path == [] then []
    else [47] + path[0] + Slashed(path[1..])
  }

  lemma {:induction false} SlashedLast(path: seq<seq<Byte>>)
    requires path != []
    ensures Slashed(path) == Slashed(path[..|path| - 1]) + [47] + path[|path| - 1]
  {
    if |path| > 1 {
      SlashedLast(path[1..]);
      assert path[..|path| - 1][1..] == path[1..][..|path| - 2];
    } else {
      assert path[1..] == [] && [47] + path[0] + [] == [] + [47] + path[0];
    }
  }

  /** A printed path is a single slash for the root, and otherwise its names with a slash before each. */
  lemma {:induction false} PrintedExact(path: seq<seq<Byte>>)
    ensures path == [] ==> Printed(path) == [47]
    ensures path != [] ==> Printed(path) == Slashed(path)
    ensures |Printed(path)| > 0 && Printed(path)[0] == 47
  {
    if |path| > 1 {
      PrintedExact(path[..|path| - 1]);
    }
    if path != [] {
      SlashedLast(path);
      assert |path| == 1 ==> path[..|path| - 1] == [];
      assert [] + [47] == [47];
    }
  }

  lemma ParentOf(t: Tree, d: int)
    requires t.Ok() && d in t.recs
    ensures |t.recs[d]| >= 2 && t.Parent(d) in t.recs && (t.Parent(d) == d <==> d == 0)
    ensures d == 0 <==> PathOf(t, d) == []
    ensures d != 0 ==>
              d in t.place && t.Parent(d) == t.place[d].0 && t.Rank(t.Parent(d)) < t.Rank(d) &&
              0 <= t.place[d].1 < |t.recs[t.Parent(d)]| &&
              PathOf(t, d) == PathOf(t, t.Parent(d)) + [t.recs[t.Parent(d)][t.place[d].1].name]
  {
    assert t.DirOk(d);
    if d != 0 {
      assert t.PlaceOk(d);
    }
  }

  lemma PrintedStep(path: seq<seq<Byte>>, name: seq<Byte>)
    ensures Printed(path + [name]) == Printed(path) + (if path == [] then [] else Slash()) + name
  {
    var q := path + [name];
    assert q[..|q| - 1] == path && q[|q| - 1] == name;
    if path == [] {
      assert Printed(q) == Slash() + name;
      assert Slash() + [] + name == Slash() + name;
    } else {
      assert Printed(q) == Printed(path) + Slash() + name;
    }
  }

  /** A line that ls prints: the name, the number of the inode whose type it looks up, and whether a slash follows
      because this is a directory */
  datatype Line = Line(name: seq<Byte>, inodeNr: int, isDir: bool)

  function LineOf(t: Tree, rec: Rec): Line {
    Line(rec.name, rec.inodeNr, rec.inodeNr in t.recs)
  }

  /** What ls prints for the first i records of directory d */
  ghost function Listing(t: Tree, d: int, recursive: bool, i: nat): (out: seq<Line>)
    requires t.Ok() && d in t.recs && i <= |t.recs[d]|
    decreases Shown(t, d, true, |t.recs[d]|), i
  {
    if i == 0 then []
    else
      var rec, before := t.recs[d][i - 1], Listing(t, d, recursive, i - 1);
      if !rec.Live() then before
      else before + [LineOf(t, rec)] + Nested(t, d, recursive, i - 1)
  }

  /** What ls prints directly after the line of record i, for what lies below it */
  ghost function Nested(t: Tree, d: int, recursive: bool, i: nat): (out: seq<Line>)
    requires t.Ok() && d in t.recs && i < |t.recs[d]| && t.recs[d][i].Live()
    decreases Shown(t, d, true, |t.recs[d]|), i, 0
  {
    var c := t.recs[d][i].inodeNr;
    if recursive && c in t.recs && i >= 2 then
      BelowChild(t, d, i);
      Listing(t, c, true, |t.recs[c]|)
    else []
  }

  /** The live ones among the first i records, in their order */
  ghost function LiveIndices(r: seq<Rec>, i: nat): (idx: seq<nat>)
    requires i <= |r|
    ensures forall j :: 0 <= j < |idx| ==> idx[j] < i && r[idx[j]].Live()
    ensures forall j, k :: 0 <= j < k < |idx| ==> idx[j] < idx[k]
    ensures forall k :: 0 <= k < i && r[k].Live() ==> k in idx
  {
    if i == 0 then []
    else if r[i - 1].Live() then LiveIndices(r, i - 1) + [i - 1]
    else LiveIndices(r, i - 1)
  }

  /** Without `recursive`, ls prints one line for each live record, "." and ".." among them, in the order of the
      records: its own name, its own inode, and the slash exactly if this is a directory. */
  lemma {:induction false} PlainListing(t: Tree, d: int, i: nat)
    requires t.Ok() && d in t.recs && i <= |t.recs[d]|
    ensures var out, idx := Listing(t, d, false, i), LiveIndices(t.recs[d], i);
            |out| == |idx| &&
            forall j :: 0 <= j < |out| ==>
              var rec := t.recs[d][idx[j]];
              out[j].name == rec.name && out[j].inodeNr == rec.inodeNr && (out[j].isDir <==> rec.inodeNr in t.recs)
  {
    hide Tree.Ok;
    hide Listing;
    if i == 0 {
      NothingListed(t, d, false);
    } else {
      PlainListing(t, d, i - 1);
      ListedNext(t, d, false, i - 1);
    }
  }

  lemma {:induction false} ListingPrefix(t: Tree, d: int, recursive: bool, i: nat, j: nat)
    requires t.Ok() && d in t.recs && i <= j <= |t.recs[d]|
    ensures Listing(t, d, recursive, i) <= Listing(t, d, recursive, j)
    decreases j
  {
    if i < j {
      hide Tree.Ok;
      ListingPrefix(t, d, recursive, i, j - 1);
    }
  }

  /** With `recursive` or without, the line of a live record comes after what is printed for the records before it;
      directly after the line follows, if `recursive` is set and the record is neither "." nor ".." and leads to a
      directory, the whole listing of this one; and then what is printed for the records after it. */
  lemma NestedListing(t: Tree, d: int, recursive: bool, k: nat)
    requires t.Ok() && d in t.recs && k < |t.recs[d]| && t.recs[d][k].Live()
    ensures var rec, out := t.recs[d][k], Listing(t, d, recursive, |t.recs[d]|);
            var below := if recursive && rec.inodeNr in t.recs && rec.name != Dot() && rec.name != DotDot()
                         then Listing(t, rec.inodeNr, true, |t.recs[rec.inodeNr]|) else [];
            var from, to := |Listing(t, d, recursive, k)|, |Listing(t, d, recursive, k + 1)|;
            0 <= from < to <= |out| && out[from] == LineOf(t, rec) && out[from + 1..to] == below &&
            out[..from] == Listing(t, d, recursive, k)
  {
    DotEntries(t, d, k);
    hide Tree.Ok;
    var before, out := Listing(t, d, recursive, k), Listing(t, d, recursive, |t.recs[d]|);
    var next := Listing(t, d, recursive, k + 1);
    assert next == before + [LineOf(t, t.recs[d][k])] + Nested(t, d, recursive, k);
    ListingPrefix(t, d, recursive, k + 1, |t.recs[d]|);
    assert out[..|next|] == next;
    assert out[|before| + 1..|next|] == next[|before| + 1..];
    assert out[..|before|] == next[..|before|];
  }

  /** The inodes of the lines that are not for "." or ".." */
  function Entries(out: seq<Line>): seq<int> {
    if out == [] then []
    else
      var last := out[|out| - 1];
      Entries(out[..|out| - 1]) + if last.name == Dot() || last.name == DotDot() then [] else [last.inodeNr]
  }

  lemma {:induction false} EntriesConcat(a: seq<Line>, b: seq<Line>)
    ensures Entries(a + b) == Entries(a) + Entries(b)
  {
    if b == [] {
      assert a + b == a;
    } else {
      EntriesConcat(a, b[..|b| - 1]);
      assert (a + b)[..|a + b| - 1] == a + b[..|b| - 1];
    }
  }

  lemma ListedOne(out: seq<Line>, line: Line, below: seq<Line>)
    ensures multiset(Entries(out + [line] + below)) ==
            multiset(Entries(out)) + (if line.name == Dot() || line.name == DotDot() then multiset{}
                                      else multiset{line.inodeNr}) +
            multiset(Entries(below))
  {
    EntriesConcat(out + [line], below);
    EntriesConcat(out, [line]);
    assert Entries([]) == [] && [line][..0] == [];
  }

  /** Each line besides those for "." and ".." has the name of its inode. */
  ghost predicate Titled(t: Tree, out: seq<Line>) {
    forall k :: 0 <= k < |out| && out[k].name != Dot() && out[k].name != DotDot() ==>
      out[k].inodeNr in t.place &&
      var (d, i) := t.place[out[k].inodeNr];
      d in t.recs && 0 <= i < |t.recs[d]| && t.recs[d][i].name == out[k].name
  }

  lemma NothingTitled(t: Tree)
    ensures Titled(t, [])
  {
  }

  lemma LineTitled(t: Tree, d: int, i: nat, out: seq<Line>, below: seq<Line>)
    requires t.Ok() && d in t.recs && i < |t.recs[d]| && t.recs[d][i].Live() && Titled(t, out) && Titled(t, below)
    ensures Titled(t, out + [LineOf(t, t.recs[d][i])] + below)
  {
    assert t.DirOk(d);
    DotEntries(t, d, i);
  }

  lemma NothingListed(t: Tree, d: int, recursive: bool)
    requires t.Ok() && d in t.recs
    ensures Listing(t, d, recursive, 0) == []
  {
  }

  lemma ListedNext(t: Tree, d: int, recursive: bool, i: nat)
    requires t.Ok() && d in t.recs && i < |t.recs[d]|
    ensures var rec, out, next := t.recs[d][i], Listing(t, d, recursive, i), Listing(t, d, recursive, i + 1);
            if !rec.Live() then next == out
            else
              var below := if recursive && rec.inodeNr in t.recs && i >= 2
                           then Listing(t, rec.inodeNr, true, |t.recs[rec.inodeNr]|) else [];
              next == out + [LineOf(t, rec)] + below
  {
    hide Tree.Ok;
  }

  lemma NothingShown(t: Tree, d: int, recursive: bool)
    requires t.Ok() && d in t.recs
    ensures multiset(Entries([])) == multiset(Shown(t, d, recursive, 0))
  {
    ShownNothing(t, d, recursive);
  }

  lemma LineShown(t: Tree, d: int, recursive: bool, i: nat, out: seq<Line>, below: seq<Line>)
    requires t.Ok() && d in t.recs && i < |t.recs[d]| && t.recs[d][i].Live()
    requires multiset(Entries(out)) == multiset(Shown(t, d, recursive, i))
    requires var c := t.recs[d][i].inodeNr;
             if recursive && c in t.recs && i >= 2
             then multiset(Entries(below)) == multiset(Shown(t, c, true, |t.recs[c]|))
             else below == []
    ensures multiset(Entries(out + [LineOf(t, t.recs[d][i])] + below)) ==
            multiset(Shown(t, d, recursive, i + 1))
  {
    hide Shown;
    ShownSets(t, d, recursive, i);
    DotEntries(t, d, i);
    ListedOne(out, LineOf(t, t.recs[d][i]), below);
    assert Entries([]) == [];
  }

  lemma NothingPacked()
    ensures Packed([], [])
  {
  }

  lemma DotsAdded(nr: int, parent: int)
    requires 0 <= nr && 0 <= parent
    ensures StopOf([], Dot(), 0) == 0 && Added([], Dot(), nr) == [Rec(nr, Dot())]
    ensures StopOf([Rec(nr, Dot())], DotDot(), 0) == 1 &&
            Added([Rec(nr, Dot())], DotDot(), parent) == NewDir(nr, parent)
  {
  }

  /** The bytes of the record whose inode number testfs_remove_dirent has overwritten */
  function Tombstone(name: seq<Byte>): (b: seq<Byte>)
    ensures b == Rec(INVALID_INODE_NR, name).Encode()
  {
    EncodeWords([|name| + 1, INVALID_INODE_NR]) + name + [0]
  }

  class Namespace {
    var nodes: map<int, Node>
    var cur: int
    ghost var tree: Tree

    /** The bytes of the directories are whole records, and these form a tree; the current directory is in it. */
    ghost predicate Valid()
      reads this
    {
      tree.Ok() && Shows(nodes, tree) && cur in tree.recs
    }

    /** testfs_make_root_dir, on a file system without inodes */
    constructor ()
      ensures Valid() && cur == 0 && tree.recs == map[0 := NewDir(0, 0)] && tree.files == {}
    {
      nodes, cur := map[], 0;
      tree := Tree(map[0 := NewDir(0, 0)], {}, map[], map[0 := 0]);
      new;
      NewDirUnique(0, 0);
      var data := EmptyDir(0, 0);
      nodes := map[0 := Dir(data)];
      assert tree.DirOk(0);
    }

    /** testfs_create_empty_dir */
    static method EmptyDir(nr: int, parent: int) returns (data: seq<Byte>)
      requires 0 <= nr && 0 <= parent && IsS32(nr) && IsS32(parent)
      ensures Packed(data, NewDir(nr, parent))
    {
      NothingPacked();
      hide Packed;
      DotsAdded(nr, parent);
      var ret;
      ret, data := AddDirent([], Dot(), nr, []);
      ret, data := AddDirent(data, DotDot(), parent, [Rec(nr, Dot())]);
    }

    /** testfs_create_file_or_dir in the current directory; inodeNr is what testfs_create_inode returned. */
    method CreateFileOrDir(isDir: bool, name: seq<Byte>, inodeNr: int) returns (ret: int)
      requires Valid() && IsName(name) && IsS32(inodeNr) && IsS32(cur) && inodeNr !in nodes
      modifies this
      ensures Valid() && cur == old(cur)
      ensures if name in Names(old(tree.recs[cur])) then ret == -EEXIST && nodes == old(nodes) && tree == old(tree)
              else if inodeNr < 0 then ret == inodeNr && nodes == old(nodes) && tree == old(tree)
              else ret == 0 && tree == old(tree.Created(cur, name, inodeNr, isDir))
      ensures ret == 0 ==>
                Names(tree.recs[cur]) == old(Names(tree.recs[cur]))[name := inodeNr] &&
                nodes.Keys == old(nodes.Keys) + {inodeNr} && (nodes[inodeNr].Dir? <==> isDir) &&
                forall m :: m in old(nodes) && m != cur ==> nodes[m] == old(nodes)[m]
    {
      hide Tree.Ok;
      hide Names;
      hide Packed;
      InTree(tree, cur);
      LookupIsMap(tree.recs[cur], name);
      var nr := NameToInodeNr(nodes[cur].data, name, tree.recs[cur]);
      if nr >= 0 {
        return -EEXIST;
      }
      if inodeNr < 0 {
        return inodeNr;
      }
      var node := File;
      if isDir {
        var data := EmptyDir(inodeNr, cur);
        node := Dir(data);
      }
      CreatedOk(tree, cur, name, inodeNr, isDir);
      CreatedExact(tree, cur, name, inodeNr, isDir);
      var data;
      ret, data := AddDirent(nodes[cur].data, name, inodeNr, tree.recs[cur]);
      CreatedShows(nodes, tree, cur, name, inodeNr, data, node);
      nodes := nodes[cur := Dir(data)][inodeNr := node];
      tree := tree.Created(cur, name, inodeNr, isDir);
      ret := 0;
    }

    /** cmd_cd */
    method Cd(name: seq<Byte>) returns (ret: int)
      requires Valid() && IsName(name)
      modifies this`cur
      ensures Valid()
      ensures var names := Names(tree.recs[old(cur)]);
              if name !in names then ret == -ENOENT && cur == old(cur)
              else if names[name] !in tree.recs then ret == -ENOTDIR && cur == old(cur)
              else ret == 0 && cur == names[name]
    {
      hide Tree.Ok;
      hide Names;
      hide Packed;
      DirNode(nodes, tree, cur);
      LookupIsMap(tree.recs[cur], name);
      var inodeNr := NameToInodeNr(nodes[cur].data, name, tree.recs[cur]);
      if inodeNr < 0 {
        return inodeNr;
      }
      EntryExists(tree, cur, IndexOf(tree.recs[cur], name, 0));
      if !nodes[inodeNr].Dir? {
        return -ENOTDIR;
      }
      cur := inodeNr;
      ret := 0;
    }

    /** testfs_remove_dirent_allowed, for a directory: has it an entry besides "." and ".."? */
    static method AnyEntry(data: seq<Byte>, ghost t: Tree, ghost nr: int) returns (ret: int)
      requires t.Ok() && nr in t.recs && Packed(data, t.recs[nr])
      ensures ret == if t.Occupied(nr) then -ENOTEMPTY else 0
    {
      hide Tree.Ok;
      hide Packed;
      ghost var recs := t.recs[nr];
      var offset := 0;
      ghost var i := 0;
      ret := 0;
      while ret == 0
        invariant i <= |recs| && offset == Start(recs, i)
        invariant ret == 0 || ret == -ENOTEMPTY
        invariant ret == 0 ==> forall k :: 2 <= k < i ==> !recs[k].Live()
        invariant ret != 0 ==> t.Occupied(nr)
        decreases |recs| - i, ret == 0
      {
        var d;
        d, offset := NextDirent(data, offset, recs, i);
        if d == None {
          break;
        }
        if recs[i].Live() {
          DotEntries(t, nr, i);
        }
        i := i + 1;
        if d.value.inodeNr < 0 || CString(d.value.chars) == Dot() || CString(d.value.chars) == DotDot() {
          continue;
        }
        ret := -ENOTEMPTY;
      }
    }

    /** testfs_remove_dirent_allowed */
    method RemoveDirentAllowed(inodeNr: int) returns (ret: int)
      requires Valid() && inodeNr in nodes
      ensures ret == if tree.Occupied(inodeNr) then -ENOTEMPTY else 0
    {
      hide Tree.Ok;
      hide Packed;
      if !nodes[inodeNr].Dir? {
        return 0;
      }
      assert inodeNr in tree.recs;
      ret := AnyEntry(nodes[inodeNr].data, tree, inodeNr);
    }

    /** testfs_remove_dirent, the search: the first live entry of the name, and where it is */
    static method FindEntry(data: seq<Byte>, name: seq<Byte>, ghost recs: seq<Rec>) returns (inodeNr: int, at: nat)
      requires Packed(data, recs) && IsName(name)
      ensures var i := IndexOf(recs, name, 0);
              if i == |recs| then inodeNr == INVALID_INODE_NR
              else inodeNr == recs[i].inodeNr >= 0 && at == Start(recs, i) && at + recs[i].Size() <= |data|
    {
      hide Packed;
      inodeNr := INVALID_INODE_NR;
      at := 0;
      var offset := 0;
      ghost var i := 0;
      while inodeNr == INVALID_INODE_NR
        invariant i <= |recs| && (inodeNr == INVALID_INODE_NR ==> offset == Start(recs, i))
        invariant inodeNr == INVALID_INODE_NR ==> IndexOf(recs, name, 0) == IndexOf(recs, name, i)
        invariant inodeNr != INVALID_INODE_NR ==>
                    var j := IndexOf(recs, name, 0);
                    j < |recs| && inodeNr == recs[j].inodeNr >= 0 && at == Start(recs, j) &&
                    at + recs[j].Size() <= |data|
        decreases |recs| - i
      {
        at := offset;
        var d;
        d, offset := NextDirent(data, offset, recs, i);
        if d == None {
          break;
        }
        RecordAt(data, recs, i);
        i := i + 1;
        if d.value.inodeNr < 0 || CString(d.value.chars) != name {
          continue;
        }
        inodeNr := d.value.inodeNr;
      }
    }

    /** testfs_remove_dirent in the current directory; `data` is what its bytes become. */
    method RemoveDirent(name: seq<Byte>) returns (ret: int, data: seq<Byte>)
      requires Valid() && IsName(name)
      ensures var recs, i := tree.recs[cur], IndexOf(tree.recs[cur], name, 0);
              if name == Dot() || name == DotDot() then ret == -EINVAL
              else if i == |recs| then ret == -ENOENT
              else if tree.Occupied(recs[i].inodeNr) then ret == -ENOTEMPTY
              else ret == recs[i].inodeNr >= 0 && Packed(data, recs[i := Rec(INVALID_INODE_NR, name)])
    {
      hide Tree.Ok;
      hide Packed;
      DirNode(nodes, tree, cur);
      data := nodes[cur].data;
      ghost var recs := tree.recs[cur];
      if name == Dot() || name == DotDot() {
        return -EINVAL, data;
      }
      var inodeNr, at := FindEntry(data, name, recs);
      if inodeNr < 0 {
        return -ENOENT, data;
      }
      ghost var i := IndexOf(recs, name, 0);
      EntryExists(tree, cur, i);
      ret := RemoveDirentAllowed(inodeNr);
      if ret < 0 {
        return;
      }
      WriteInPlace(data, recs, i, Rec(INVALID_INODE_NR, name));
      data := WriteBytes(data, at, Tombstone(name));
      ret := inodeNr;
    }

    /** cmd_rm: the entry becomes a tombstone, and the inode is removed. */
    method Rm(name: seq<Byte>) returns (ret: int)
      requires Valid() && IsName(name)
      modifies this
      ensures Valid() && cur == old(cur)
      ensures var names := Names(old(tree.recs[cur]));
              if name == Dot() || name == DotDot() then ret == -EINVAL && nodes == old(nodes) && tree == old(tree)
              else if name !in names then ret == -ENOENT && nodes == old(nodes) && tree == old(tree)
              else if old(tree).Occupied(names[name]) then ret == -ENOTEMPTY && nodes == old(nodes) && tree == old(tree)
              else
                ret == 0 && IndexOf(old(tree.recs[cur]), name, 0) < |old(tree.recs[cur])| &&
                tree == old(tree.Removed(cur, name))
      ensures ret == 0 ==>
                var names := old(Names(tree.recs[cur]));
                Names(tree.recs[cur]) == names - {name} && name in names &&
                nodes.Keys == old(nodes.Keys) - {names[name]} &&
                forall m :: m in nodes && m != cur ==> nodes[m] == old(nodes)[m]
    {
      hide Tree.Ok;
      hide Names;
      hide Packed;
      hide Tree.Occupied;
      DirNode(nodes, tree, cur);
      LookupIsMap(tree.recs[cur], name);
      var inodeNr, data := RemoveDirent(name);
      if inodeNr < 0 {
        return inodeNr;
      }
      RemovedOk(tree, cur, name);
      RemovedExact(tree, cur, name);
      RemovedShows(nodes, tree, cur, name, data);
      nodes := nodes[cur := Dir(data)] - {inodeNr};
      tree := tree.Removed(cur, name);
      ret := 0;
    }

    /** testfs_find_dirent: the first record with inode number nr, which is record i */
    static method FindDirent(data: seq<Byte>, nr: int, ghost recs: seq<Rec>)
      returns (found: Option<Dirent>, ghost i: nat)
      requires Packed(data, recs)
      ensures i <= |recs| && (forall k :: 0 <= k < i ==> recs[k].inodeNr != nr) && (found == None <==> i == |recs|)
      ensures i < |recs| ==> found.Some? && recs[i].inodeNr == nr && CString(found.value.chars) == recs[i].name
    {
      hide Packed;
      var offset := 0;
      i := 0;
      while true
        invariant i <= |recs| && offset == Start(recs, i) && forall k :: 0 <= k < i ==> recs[k].inodeNr != nr
        decreases |recs| - i
      {
        found, offset := NextDirent(data, offset, recs, i);
        if found == None || found.value.inodeNr == nr {
          return;
        }
        i := i + 1;
      }
    }

    /** testfs_pwd: it ends, and prints the path of the directory; it returns 1 for the root. */
    method Pwd(nr: int) returns (ret: int, printed: seq<Byte>)
      requires Valid() && nr in tree.recs
      ensures printed == Printed(PathOf(tree, nr)) && ret == if nr == 0 then 1 else 0
      ensures printed == if nr == 0 then [47] else Slashed(PathOf(tree, nr))
      decreases tree.Rank(nr)
    {
      hide Packed;
      hide Tree.Ok;
      hide PathOf;
      DirNode(nodes, tree, nr);
      DotNames(tree, nr, DotDot());
      InTree(tree, nr);
      var parent := NameToInodeNr(nodes[nr].data, DotDot(), tree.recs[nr]);
      ParentOf(tree, nr);
      PrintedExact(PathOf(tree, nr));
      if parent == nr {
        return 1, Slash();
      }
      DirNode(nodes, tree, parent);
      ghost var i;
      var d;
      d, i := FindDirent(nodes[parent].data, nr, tree.recs[parent]);
      OnlyEntry(tree, nr, i);
      OnlyEntry(tree, nr, tree.place[nr].1);
      ParentOf(tree, parent);
      PrintedStep(PathOf(tree, parent), CString(d.value.chars));
      ret, printed := Pwd(parent);
      printed := printed + (if ret == 1 then [] else Slash()) + CString(d.value.chars);
      ret := 0;
    }

    /** testfs_ls: it ends, and prints the records in their order, each followed by what lies below it; so every inode
        of the directory, or below it, has exactly one line besides those for "." and "..". */
    method Ls(nr: int, recursive: bool) returns (out: seq<Line>)
      requires Valid() && nr in tree.recs
      ensures out == Listing(tree, nr, recursive, |tree.recs[nr]|)
      ensures multiset(Entries(out)) == multiset(Shown(tree, nr, recursive, |tree.recs[nr]|))
      ensures Titled(tree, out)
      decreases Shown(tree, nr, true, |tree.recs[nr]|)
    {
      hide Packed;
      hide Shown;
      hide Entries;
      hide Titled;
      hide Listing;
      hide Nested;
      hide Tree.Ok;
      DirNode(nodes, tree, nr);
      ghost var recs := tree.recs[nr];
      out := [];
      var offset := 0;
      ghost var i := 0;
      NothingShown(tree, nr, recursive);
      NothingTitled(tree);
      NothingListed(tree, nr, recursive);
      while true
        invariant i <= |recs| && offset == Start(recs, i) && out == Listing(tree, nr, recursive, i)
        invariant multiset(Entries(out)) == multiset(Shown(tree, nr, recursive, i)) && Titled(tree, out)
        decreases |recs| - i
      {
        var d;
        d, offset := NextDirent(nodes[nr].data, offset, recs, i);
        if d == None {
          return;
        }
        i := i + 1;
        if d.value.inodeNr < 0 {
          ShownSets(tree, nr, recursive, i - 1);
          ListedNext(tree, nr, recursive, i - 1);
          continue;
        }
        EntryExists(tree, nr, i - 1);
        DotEntries(tree, nr, i - 1);
        var name, c := CString(d.value.chars), d.value.inodeNr;
        var below := [];
        NothingTitled(tree);
        if recursive && nodes[c].Dir? && name != Dot() && name != DotDot() {
          BelowChild(tree, nr, i - 1);
          below := Ls(c, recursive);
        }
        ListedNext(tree, nr, recursive, i - 1);
        LineShown(tree, nr, recursive, i - 1, out, below);
        LineTitled(tree, nr, i - 1, out, below);
        out := out + [Line(name, c, nodes[c].Dir?)] + below;
      }
    }
  }
}
