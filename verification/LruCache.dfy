/** webserver/server_thread.c: the file cache, a chained hash table with a recency list and a byte budget. */
module LruCache {
  import opened StringHash

  const TABLE_SIZE: nat := 10000000

  /** struct file_data, which is compared by its address; a name is the characters of a C string, as signed values. */
  datatype FileData = FileData(address: int, name: seq<int>, size: nat)

  function Hash(name: seq<int>): (h: nat)
    ensures h < TABLE_SIZE
  {
    HashFrom(5381, name) % TABLE_SIZE
  }

  // ---- The recency list ----

  function Without(files: seq<FileData>, f: FileData): (r: seq<FileData>) {
    if files == [] then []
    else if files[|files| - 1] == f then Without(files[..|files| - 1], f)
    else Without(files[..|files| - 1], f) + [files[|files| - 1]]
  }

  predicate Distinct(files: seq<FileData>) {
    forall i, j :: 0 <= i < j < |files| ==> files[i] != files[j]
  }

  lemma {:induction false} WithoutAbsent(files: seq<FileData>, f: FileData)
    requires f !in files
    ensures Without(files, f) == files
  {
    if files != [] {
      WithoutAbsent(files[..|files| - 1], f);
    }
  }

  lemma {:induction false} WithoutAt(files: seq<FileData>, i: nat)
    requires Distinct(files) && i < |files|
    ensures Without(files, files[i]) == files[..i] + files[i + 1..]
  {
    var init := files[..|files| - 1];
    if i == |files| - 1 {
      WithoutAbsent(init, files[i]);
    } else {
      WithoutAt(init, i);
      assert files[..i] + files[i + 1..] == init[..i] + init[i + 1..] + [files[|files| - 1]];
    }
  }

  function TotalSize(files: seq<FileData>): nat {
    if files == [] then 0 else TotalSize(files[..|files| - 1]) + files[|files| - 1].size
  }

  lemma {:induction false} TotalConcat(a: seq<FileData>, b: seq<FileData>)
    ensures TotalSize(a + b) == TotalSize(a) + TotalSize(b)
  {
    if b == [] {
      assert a + b == a;
    } else {
      TotalConcat(a, b[..|b| - 1]);
      assert (a + b)[..|a + b| - 1] == a + b[..|b| - 1];
    }
  }

  /** The total size of the first k files */
  function FrontSize(files: seq<FileData>, k: nat): nat
    requires k <= |files|
  {
    if k == 0 then 0 else FrontSize(files, k - 1) + files[k - 1].size
  }

  lemma {:induction false} FrontAndRestSize(files: seq<FileData>, k: nat)
    requires k <= |files|
    ensures TotalSize(files) == FrontSize(files, k) + TotalSize(files[k..])
  {
    if k == 0 {
      assert files[0..] == files;
    } else {
      FrontAndRestSize(files, k - 1);
      assert files[k - 1..] == [files[k - 1]] + files[k..];
      TotalConcat([files[k - 1]], files[k..]);
      assert [files[k - 1]][..0] == [];
    }
  }

  /** What update_LRU makes of the recency list */
  function Touched(lru: seq<FileData>, f: FileData): seq<FileData> {
    Without(lru, f) + [f]
  }

  lemma {:induction false} WithoutMembers(files: seq<FileData>, f: FileData)
    ensures forall g :: g in Without(files, f) <==> g in files && g != f
  {
    if files != [] {
      var init := files[..|files| - 1];
      WithoutMembers(init, f);
      assert files == init + [files[|files| - 1]];
    }
  }

  lemma {:induction false} WithoutTotal(files: seq<FileData>, f: FileData)
    requires Distinct(files)
    ensures TotalSize(Without(files, f)) == TotalSize(files) - if f in files then f.size else 0
  {
    if files != [] {
      var init := files[..|files| - 1];
      WithoutTotal(init, f);
      assert files == init + [files[|files| - 1]];
    }
  }

  lemma {:induction false} WithoutNames(files: seq<FileData>, f: FileData)
    requires NamesDistinct(files)
    ensures NamesDistinct(Without(files, f))
  {
    if files != [] {
      var init := files[..|files| - 1];
      WithoutNames(init, f);
      WithoutMembers(init, f);
      var rest := Without(init, f);
      forall i | 0 <= i < |rest| ensures rest[i].name != files[|files| - 1].name {
        assert rest[i] in rest && rest[i] in init;
      }
    }
  }

  predicate NamesDistinct(files: seq<FileData>) {
    forall i, j :: 0 <= i < j < |files| ==> files[i].name != files[j].name
  }

  lemma TouchedMembers(lru: seq<FileData>, f: FileData)
    requires NamesDistinct(lru) && (forall g :: g in lru && g.name == f.name ==> g == f)
    ensures NamesDistinct(Touched(lru, f))
    ensures forall g :: g in Touched(lru, f) <==> g in lru || g == f
    ensures TotalSize(Touched(lru, f)) == TotalSize(lru) + if f in lru then 0 else f.size
  {
    WithoutMembers(lru, f);
    WithoutNames(lru, f);
    WithoutTotal(lru, f);
    var rest := Without(lru, f);
    forall i | 0 <= i < |rest| ensures rest[i].name != f.name {
      assert rest[i] in rest;
    }
  }

  // ---- The chains ----

  type Table = t: seq<seq<FileData>> | |t| == TABLE_SIZE witness seq(TABLE_SIZE, _ => [])

  /** What delete_entry makes of the table: a chain of one entry is dropped, and of a longer one, the entry is
      unlinked, unless it is the first; then the chain keeps it, although it is freed. */
  function Deleted(table: Table, f: FileData): Table {
    var h := Hash(f.name);
    var chain := table[h];
    if |chain| <= 1 then table[h := []]
    else if chain[0] == f then table
    else table[h := Without(chain, f)]
  }

  /** The table after the first k files of the recency list were deleted */
  function DeletedAll(table: Table, lru: seq<FileData>, k: nat): Table
    requires k <= |lru|
  {
    if k == 0 then table else Deleted(DeletedAll(table, lru, k - 1), lru[k - 1])
  }

  /** The file is in a chain. */
  predicate InTable(table: Table, f: FileData) {
    f in table[Hash(f.name)]
  }

  /** Each file is in the chain of its name, once, and each name is there once. */
  ghost predicate Chained(table: Table) {
    (forall h, i :: 0 <= h < TABLE_SIZE && 0 <= i < |table[h]| ==> Hash(table[h][i].name) == h) &&
    (forall h :: 0 <= h < TABLE_SIZE ==> NamesDistinct(table[h]))
  }

  /** The recency list and the chains hold the same files. */
  ghost predicate SameFiles(table: Table, lru: seq<FileData>) {
    (forall f :: f in lru ==> InTable(table, f)) &&
    (forall h, i :: 0 <= h < TABLE_SIZE && 0 <= i < |table[h]| ==> table[h][i] in lru)
  }

  /** The file is the first of several in its chain. */
  predicate HeadOfMany(table: Table, f: FileData) {
    var chain := table[Hash(f.name)];
    |chain| > 1 && chain[0] == f
  }

  /** Deleting a file that is in the table removes it, and nothing else, if and only if it is not the first of
      several. */
  lemma DeletedExact(table: Table, f: FileData)
    requires Chained(table) && InTable(table, f)
    ensures Chained(Deleted(table, f))
    ensures InTable(Deleted(table, f), f) <==> HeadOfMany(table, f)
    ensures forall g: FileData :: g != f ==> (InTable(Deleted(table, f), g) <==> InTable(table, g))
  {
    hide HashFrom;
    var h := Hash(f.name);
    var chain := table[h];
    WithoutMembers(chain, f);
    WithoutNames(chain, f);
    if |chain| == 1 {
      assert chain[0] == f;
    }
    var chain' := Deleted(table, f)[h];
    forall i | 0 <= i < |chain'| ensures Hash(chain'[i].name) == h {
      assert chain'[i] in chain' && chain'[i] in chain;
    }
  }

  // ---- Eviction ----

  /** How many files cache_evict takes from the front of the recency list: the fewest that make room */
  function Victims(lru: seq<FileData>, available: int, size: int): (k: nat)
    ensures k <= |lru|
    ensures available + FrontSize(lru, |lru|) >= size ==> available + FrontSize(lru, k) >= size
    ensures forall j :: 0 <= j < k ==> available + FrontSize(lru, j) < size
  {
    VictimsFrom(lru, available, size, 0)
  }

  function VictimsFrom(lru: seq<FileData>, available: int, size: int, from: nat): (k: nat)
    requires from <= |lru| && forall j :: 0 <= j < from ==> available + FrontSize(lru, j) < size
    ensures from <= k <= |lru|
    ensures available + FrontSize(lru, |lru|) >= size ==> available + FrontSize(lru, k) >= size
    ensures forall j :: 0 <= j < k ==> available + FrontSize(lru, j) < size
    decreases |lru| - from
  {
    if from == |lru| || available + FrontSize(lru, from) >= size then from
         else VictimsFrom(lru, available, size, from + 1)
  }

  /** None of the first k files is the first of several in its chain when it is evicted. */
  predicate Unlinkable(table: Table, lru: seq<FileData>, k: nat)
    requires k <= |lru|
  {
    forall j :: 0 <= j < k ==> !HeadOfMany(DeletedAll(table, lru, j), lru[j])
  }

  /** f is one of the first k files. */
  predicate Among(lru: seq<FileData>, k: nat, f: FileData) {
    exists j :: 0 <= j < k && j < |lru| && lru[j] == f
  }

  lemma NoneAmong(lru: seq<FileData>)
    ensures forall g :: !Among(lru, 0, g)
  {
  }

  lemma AmongNext(lru: seq<FileData>, k: nat)
    requires NamesDistinct(lru) && k < |lru|
    ensures !Among(lru, k, lru[k])
    ensures forall g :: Among(lru, k + 1, g) <==> Among(lru, k, g) || g == lru[k]
    ensures forall j :: 0 <= j < k ==> lru[j] != lru[k] && Among(lru, k, lru[j])
  {
    forall g | Among(lru, k + 1, g) ensures Among(lru, k, g) || g == lru[k] {
      var j :| 0 <= j < k + 1 && j < |lru| && lru[j] == g;
    }
    assert Among(lru, k + 1, lru[k]);
  }

  lemma {:induction false} DeletedAllExact(table: Table, lru: seq<FileData>, k: nat)
    requires Chained(table) && (forall f :: f in lru ==> InTable(table, f)) && NamesDistinct(lru) && k <= |lru|
    ensures Chained(DeletedAll(table, lru, k))
    ensures forall g :: !Among(lru, k, g) ==> (InTable(DeletedAll(table, lru, k), g) <==> InTable(table, g))
    ensures forall j :: 0 <= j < k ==>
              (InTable(DeletedAll(table, lru, k), lru[j]) <==> HeadOfMany(DeletedAll(table, lru, j), lru[j]))
  {
    hide Chained;
    hide InTable;
    hide HeadOfMany;
    hide Deleted;
    hide NamesDistinct;
    hide Among;
    NoneAmong(lru);
    if k > 0 {
      DeletedAllExact(table, lru, k - 1);
      AmongNext(lru, k - 1);
      assert lru[k - 1] in lru;
      DeletedExact(DeletedAll(table, lru, k - 1), lru[k - 1]);
    }
  }

  lemma InSomeChain(table: Table, lru: seq<FileData>)
    requires Chained(table)
    ensures SameFiles(table, lru) <==> forall f :: f in lru <==> InTable(table, f)
  {
    hide Hash;
    if forall f :: f in lru <==> InTable(table, f) {
      forall h, i | 0 <= h < TABLE_SIZE && 0 <= i < |table[h]| ensures table[h][i] in lru {
        assert InTable(table, table[h][i]);
      }
    }
  }

  /** After an eviction, the chains and the recency list hold the same files if and only if no victim was the first
      of several. */
  lemma EvictedExact(table: Table, lru: seq<FileData>, k: nat)
    requires Chained(table) && SameFiles(table, lru) && NamesDistinct(lru) && k <= |lru|
    ensures Chained(DeletedAll(table, lru, k)) && NamesDistinct(lru[k..])
    ensures SameFiles(DeletedAll(table, lru, k), lru[k..]) <==> Unlinkable(table, lru, k)
    ensures forall g :: !Among(lru, k, g) ==> (InTable(DeletedAll(table, lru, k), g) <==> g in lru[k..])
  {
    hide Chained;
    hide InTable;
    hide HeadOfMany;
    hide SameFiles;
    hide DeletedAll;
    InSomeChain(table, lru);
    DeletedAllExact(table, lru, k);
    InSomeChain(DeletedAll(table, lru, k), lru[k..]);
    FrontAndRest(lru, k);
  }

  lemma FrontAndRest(lru: seq<FileData>, k: nat)
    requires NamesDistinct(lru) && k <= |lru|
    ensures NamesDistinct(lru[k..])
    ensures forall g :: g in lru <==> Among(lru, k, g) || g in lru[k..]
    ensures forall g :: Among(lru, k, g) ==> g !in lru[k..] && exists j :: 0 <= j < k && lru[j] == g
    ensures forall j :: 0 <= j < k ==> Among(lru, k, lru[j])
  {
    var rest := lru[k..];
    forall g | g in lru ensures Among(lru, k, g) || g in rest {
      var j :| 0 <= j < |lru| && lru[j] == g;
      assert j >= k ==> rest[j - k] == g;
    }
    forall g | g in rest ensures g in lru {
      var j :| 0 <= j < |rest| && rest[j] == g;
      assert lru[k + j] == g;
    }
  }

  // ---- Insertion ----

  function Inserted(table: Table, f: FileData): Table {
    var h := Hash(f.name);
    table[h := table[h] + [f]]
  }

  lemma InsertedExact(table: Table, f: FileData)
    requires Chained(table) && forall g :: InTable(table, g) ==> g.name != f.name
    ensures Chained(Inserted(table, f))
    ensures forall g :: InTable(Inserted(table, f), g) <==> InTable(table, g) || g == f
  {
    hide HashFrom;
    var h := Hash(f.name);
    forall i | 0 <= i < |table[h]| ensures table[h][i].name != f.name {
      assert InTable(table, table[h][i]);
    }
  }

  // ---- The whole cache ----

  /** The position of the last use of f in the history, or -1 */
  function LastUse(history: seq<FileData>, f: FileData): (i: int)
    ensures -1 <= i < |history|
  {
    if history == [] then -1
    else if history[|history| - 1] == f then |history| - 1
    else LastUse(history[..|history| - 1], f)
  }

  /** The files are in the order of their last use. */
  ghost predicate ByLastUse(lru: seq<FileData>, history: seq<FileData>) {
    forall i, j :: 0 <= i < j < |lru| ==> LastUse(history, lru[i]) < LastUse(history, lru[j])
  }

  lemma {:induction false} WithoutByLastUse(lru: seq<FileData>, f: FileData, history: seq<FileData>)
    requires ByLastUse(lru, history)
    ensures ByLastUse(Without(lru, f), history)
  {
    if lru != [] {
      var init := lru[..|lru| - 1];
      WithoutByLastUse(init, f, history);
      WithoutMembers(init, f);
      var rest := Without(init, f);
      forall i | 0 <= i < |rest| ensures LastUse(history, rest[i]) < LastUse(history, lru[|lru| - 1]) {
        assert rest[i] in rest && rest[i] in init;
      }
    }
  }

  /** A use of f moves it to the end of the order. */
  lemma TouchedByLastUse(lru: seq<FileData>, f: FileData, history: seq<FileData>)
    requires ByLastUse(lru, history)
    ensures ByLastUse(Touched(lru, f), history + [f])
  {
    WithoutByLastUse(lru, f, history);
    WithoutMembers(lru, f);
    var rest := Without(lru, f);
    assert (history + [f])[..|history|] == history;
    forall i | 0 <= i < |rest| ensures LastUse(history + [f], rest[i]) == LastUse(history, rest[i]) {
      assert rest[i] in rest;
    }
  }

  /** Within each chain, the files are in the order of their insertion. */
  ghost predicate ByInsertion(table: Table, births: seq<FileData>) {
    forall h :: 0 <= h < TABLE_SIZE ==> ByLastUse(table[h], births)
  }

  lemma InsertedOrder(table: Table, f: FileData, births: seq<FileData>)
    requires Chained(table) && ByInsertion(table, births) && forall g :: InTable(table, g) ==> g.name != f.name
    ensures ByInsertion(Inserted(table, f), births + [f])
  {
    hide Hash;
    assert (births + [f])[..|births|] == births;
    forall h | 0 <= h < TABLE_SIZE ensures ByLastUse(Inserted(table, f)[h], births + [f]) {
      assert f !in table[h] by {
        assert f in table[h] ==> Hash(f.name) == h && InTable(table, f);
      }
      ByLastUseGrows(table, f, births, h);
      if h == Hash(f.name) {
        WithoutAbsent(table[h], f);
        TouchedByLastUse(table[h], f, births);
      }
    }
  }

  lemma ByLastUseGrows(table: Table, f: FileData, births: seq<FileData>, h: nat)
    requires ByInsertion(table, births) && h < TABLE_SIZE && f !in table[h]
    ensures ByLastUse(table[h], births + [f])
  {
    assert (births + [f])[..|births|] == births;
    assert ByLastUse(table[h], births);
    forall i | 0 <= i < |table[h]| ensures LastUse(births + [f], table[h][i]) == LastUse(births, table[h][i]) {
    }
  }

  lemma DeletedOrder(table: Table, f: FileData, births: seq<FileData>)
    requires ByInsertion(table, births)
    ensures ByInsertion(Deleted(table, f), births)
  {
    hide Hash;
    assert ByLastUse(table[Hash(f.name)], births);
    WithoutByLastUse(table[Hash(f.name)], f, births);
  }

  lemma {:induction false} DeletedAllOrder(table: Table, lru: seq<FileData>, k: nat, births: seq<FileData>)
    requires ByInsertion(table, births) && k <= |lru|
    ensures ByInsertion(DeletedAll(table, lru, k), births)
  {
    if k > 0 {
      DeletedAllOrder(table, lru, k - 1, births);
      DeletedOrder(DeletedAll(table, lru, k - 1), lru[k - 1], births);
    }
  }

  datatype Option<T> = None | Some(value: T)

  /** Chains and recency list hold the same files, of different names, in the order of their last use, within the
      budget. */
  ghost predicate Ok(table: Table, lru: seq<FileData>, available: int, cacheSize: int, history: seq<FileData>) {
    Chained(table) && SameFiles(table, lru) && NamesDistinct(lru) && ByLastUse(lru, history) &&
    available == cacheSize - TotalSize(lru) >= 0
  }

  class Cache {
    const cacheSize: nat
    var table: Table
    var lru: seq<FileData>
    var available: int
    /** The uses of files, as update_LRU saw them */
    ghost var history: seq<FileData>
    /** The files that were inserted */
    ghost var births: seq<FileData>

    ghost predicate Valid()
      reads this
    {
      Ok(table, lru, available, cacheSize, history) && Ordered()
    }

    ghost predicate Ordered()
      reads this
    {
      ByInsertion(table, births)
    }

    /** server_init */
    constructor (cacheSize: nat)
      ensures Valid() && lru == [] && this.cacheSize == cacheSize && available == cacheSize && history == births == []
    {
      this.cacheSize := cacheSize;
      table := seq(TABLE_SIZE, _ => []);
      lru, available, history, births := [], cacheSize, [], [];
    }

    /** update_LRU */
    method UpdateLru(file: FileData)
      requires NamesDistinct(lru)
      modifies this`lru, this`history
      ensures lru == Touched(old(lru), file) && history == old(history) + [file]
    {
      history := history + [file];
      if lru == [] {
        lru := [file];
      } else if |lru| == 1 {
        if lru[0] != file {
          WithoutAbsent(lru, file);
          lru := lru + [file];
        } else {
          WithoutAt(lru, 0);
          assert lru == lru[..0] + lru[1..] + [file];
        }
      } else {
        var i := 0;
        while i < |lru| && lru[i] != file
          invariant i <= |lru| && forall k :: 0 <= k < i ==> lru[k] != file
        {
          i := i + 1;
        }
        if i < |lru| {
          WithoutAt(lru, i);
          if i == 0 {
            lru := lru[1..] + [file];
          } else {
            lru := lru[..i] + lru[i + 1..] + [file];
          }
        } else {
          WithoutAbsent(lru, file);
          lru := lru + [file];
        }
      }
    }

    /** cache_lookup; it counts as a use unless `time` is set. */
    method Lookup(name: seq<int>, time: bool) returns (r: Option<FileData>)
      requires Valid()
      modifies this`lru, this`history
      ensures Valid()
      ensures r == None <==> forall f :: f in old(lru) ==> f.name != name
      ensures r.Some? ==> r.value in old(lru) && r.value.name == name
      ensures if r.Some? && !time then lru == Touched(old(lru), r.value) && history == old(history) + [r.value]
              else lru == old(lru) && history == old(history)
    {
      hide HashFrom;
      var chain := table[Hash(name)];
      InSomeChain(table, lru);
      var i := 0;
      while i < |chain|
        invariant i <= |chain| && forall k :: 0 <= k < i ==> chain[k].name != name
      {
        if chain[i].name == name {
          assert InTable(table, chain[i]);
          if !time {
            UsedOk(table, lru, available, cacheSize, history, chain[i]);
            UpdateLru(chain[i]);
          }
          return Some(chain[i]);
        }
        i := i + 1;
      }
      return None;
    }

    /** cache_insert_ht */
    method InsertEntry(file: FileData)
      requires NamesDistinct(lru)
      modifies this
      ensures table == Inserted(old(table), file) && lru == Touched(old(lru), file) &&
              available == old(available) - file.size
      ensures table[Hash(file.name)] == old(table)[Hash(file.name)] + [file]
      ensures forall h :: 0 <= h < TABLE_SIZE && h != Hash(file.name) ==> table[h] == old(table)[h]
      ensures history == old(history) + [file] && births == old(births) + [file]
    {
      hide HashFrom;
      births := births + [file];
      var h := Hash(file.name);
      assert [] + [file] == [file];
      if table[h] == [] {
        table := table[h := [file]];
      } else {
        table := table[h := table[h] + [file]];
      }
      available := available - file.size;
      UpdateLru(file);
    }

    /** delete_entry */
    method DeleteEntry(file: FileData)
      requires InTable(table, file) && NamesDistinct(table[Hash(file.name)])
      modifies this`table
      ensures table == Deleted(old(table), file)
    {
      hide Hash;
      var h := Hash(file.name);
      var chain := table[h];
      if |chain| == 1 {
        table := table[h := []];
        return;
      }
      var i := 0;
      while chain[i] != file
        invariant i < |chain| && forall k :: 0 <= k < i ==> chain[k] != file
        decreases |chain| - i
      {
        i := i + 1;
      }
      if i > 0 {
        WithoutAt(chain, i);
        table := table[h := chain[..i] + chain[i + 1..]];
      }
    }

    /** cache_evict: it ends, and takes the fewest files from the front of the recency list that make room. */
    method Evict(size: nat)
      requires Valid() && size <= cacheSize
      modifies this`table, this`lru, this`available
      ensures var k := Victims(old(lru), old(available), size);
              lru == old(lru)[k..] && table == DeletedAll(old(table), old(lru), k) &&
              available == old(available) + FrontSize(old(lru), k) >= size
    {
      hide ByInsertion;
      hide ByLastUse;
      hide Chained;
      hide SameFiles;
      hide InTable;
      hide Victims;
      hide Hash;
      hide Deleted;
      ghost var k := 0;
      ghost var all, before, room := lru, table, available;
      while available < size
        invariant k <= |all| && lru == all[k..] && table == DeletedAll(before, all, k) &&
                  available == room + FrontSize(all, k)
        invariant k <= Victims(all, room, size)
        decreases |lru|
      {
        OneMoreVictim(all, room, size, k);
        VictimInTable(before, all, k);
        var victim := lru[0];
        available := available + victim.size;
        lru := lru[1..];
        DeleteEntry(victim);
        k := k + 1;
      }
    }

    /** cache_insert: the eviction, if the file does not fit */
    method MakeRoom(size: nat)
      requires Valid() && size <= cacheSize
      modifies this`table, this`lru, this`available
      ensures var k := Victims(old(lru), old(available), size);
              lru == old(lru)[k..] && table == DeletedAll(old(table), old(lru), k) &&
              available == old(available) + FrontSize(old(lru), k) >= size
    {
      if size > available {
        Evict(size);
      } else {
        assert Victims(lru, available, size) == 0 && lru[0..] == lru;
      }
    }

    /** cache_insert, of a file whose name is not in the cache */
    method Insert(file: FileData)
      requires Valid() && forall f :: f in lru ==> f.name != file.name
      modifies this
      ensures 2 * file.size > cacheSize ==>
                table == old(table) && lru == old(lru) && available == old(available) && history == old(history) &&
                Valid()
      ensures 2 * file.size <= cacheSize ==>
                var k := Victims(old(lru), old(available), file.size);
                lru == old(lru)[k..] + [file] && available == cacheSize - TotalSize(lru) >= 0 &&
                (Valid() <==> Unlinkable(old(table), old(lru), k))
      ensures Ordered() && births == if 2 * file.size > cacheSize then old(births) else old(births) + [file]
    {
      hide ByInsertion;
      hide Unlinkable;
      hide DeletedAll;
      hide Inserted;
      hide TotalSize;
      hide FrontSize;
      hide Chained;
      hide SameFiles;
      hide ByLastUse;
      hide Without;
      if 2 * file.size > cacheSize {
        return;
      }
      ghost var k := Victims(lru, available, file.size);
      InsertOk(table, lru, available, cacheSize, history, file, k, DeletedAll(table, lru, k), lru[k..],
               available + FrontSize(lru, k));
      InsertOrder(table, lru, births, file, k);
      MakeRoom(file.size);
      InsertEntry(file);
    }

    /** do_server_request, with the lock held for the first time: a hit counts as a use. */
    method Find(name: seq<int>) returns (hit: bool)
      requires Valid()
      modifies this`lru, this`history
      ensures Valid() && (hit <==> exists f :: f in old(lru) && f.name == name)
      ensures hit ==> exists f ::
              f in old(lru) && f.name == name && lru == Touched(old(lru), f) && history == old(history) + [f]
      ensures !hit ==> lru == old(lru) && history == old(history)
    {
      var r := Lookup(name, false);
      hit := r.Some?;
    }

    /** do_server_request, with the lock held for the second time, after a miss and the reading of the file: whatever
        other workers did meanwhile, it inserts the file if and only if no file of its name is there now. */
    method Store(file: FileData)
      requires Valid()
      modifies this
      ensures (exists f :: f in old(lru) && f.name == file.name) || 2 * file.size > cacheSize ==>
                Valid() && table == old(table) && lru == old(lru) && available == old(available) &&
                history == old(history) && births == old(births)
      ensures !(exists f :: f in old(lru) && f.name == file.name) && 2 * file.size <= cacheSize ==>
                var k := Victims(old(lru), old(available), file.size);
                lru == old(lru)[k..] + [file] && available == cacheSize - TotalSize(lru) >= 0 &&
                births == old(births) + [file] && (Valid() <==> Unlinkable(old(table), old(lru), k))
      ensures Ordered()
    {
      hide ByInsertion;
      hide Unlinkable;
      hide TotalSize;
      hide Victims;
      var r := Lookup(file.name, true);
      if r == None {
        Insert(file);
      }
    }
  }

  lemma InsertOrder(table: Table, lru: seq<FileData>, births: seq<FileData>, file: FileData, k: nat)
    requires Chained(table) && SameFiles(table, lru) && NamesDistinct(lru) && forall f :: f in lru ==>
               f.name != file.name
    requires ByInsertion(table, births) && k <= |lru|
    ensures ByInsertion(Inserted(DeletedAll(table, lru, k), file), births + [file])
  {
    hide Chained;
    hide HeadOfMany;
    hide Inserted;
    hide ByInsertion;
    hide NamesDistinct;
    InSomeChain(table, lru);
    DeletedAllOrder(table, lru, k, births);
    DeletedAllExact(table, lru, k);
    var table' := DeletedAll(table, lru, k);
    forall g | InTable(table', g) ensures g.name != file.name {
      if j :| 0 <= j < k && j < |lru| && lru[j] == g {
        assert g in lru;
      } else {
        assert !Among(lru, k, g);
      }
    }
    InsertedOrder(table', file, births);
  }

  lemma HashAlike()
    ensures Hash([97, 100]) == Hash([98, 67])
  {
    assert HashFrom(5381, [97, 100]) == HashFrom(177670, [100]) == HashFrom(5863210, []);
    assert HashFrom(5381, [98, 67]) == HashFrom(177671, [67]) == HashFrom(5863210, []);
  }

  /** A cache in which the condition fails: "ad" and "bC" hash alike, and "ad", which came first, is the one used
      longest ago. */
  lemma FirstOfTwo(a: FileData, b: FileData, table: Table)
    requires a == FileData(0, [97, 100], 2) && b == FileData(1, [98, 67], 2)
    requires table == seq(TABLE_SIZE, h => if h == Hash(a.name) then [a, b] else [])
    ensures Ok(table, [a, b], 0, 4, [a, b]) && !Unlinkable(table, [a, b], Victims([a, b], 0, 2))
  {
    hide Hash;
    HashAlike();
    assert [a, b][..1] == [a] && [a][..0] == [];
    assert FrontSize([a, b], 0) == 0 && FrontSize([a, b], 1) == 2;
    assert TotalSize([a]) == 2 && TotalSize([a, b]) == 4;
    assert LastUse([a, b], b) == 1 && LastUse([a, b], a) == LastUse([a], a) == 0;
    assert HeadOfMany(table, a);
    assert HeadOfMany(DeletedAll(table, [a, b], 0), [a, b][0]);
    assert Victims([a, b], 0, 2) == 1;
  }

  /** Of two files of the same chain, the one that was inserted first is the first of several. */
  lemma FirstInserted(table: Table, a: FileData, b: FileData)
    requires Chained(table) && SameFiles(table, [a, b]) && ByInsertion(table, [a, b])
    requires a != b && Hash(a.name) == Hash(b.name)
    ensures HeadOfMany(table, a)
  {
    hide Hash;
    var chain := table[Hash(a.name)];
    InSomeChain(table, [a, b]);
    assert InTable(table, a) && InTable(table, b);
    assert [a, b][..1] == [a];
    assert LastUse([a, b], b) == 1 && LastUse([a], a) == 0 && LastUse([a, b], a) == 0;
    assert ByLastUse(chain, [a, b]);
    var i :| 0 <= i < |chain| && chain[i] == a;
    var j :| 0 <= j < |chain| && chain[j] == b;
    assert chain[0] in chain && InTable(table, chain[0]) by {
      assert Hash(chain[0].name) == Hash(a.name);
    }
  }

  lemma NoVictim(lru: seq<FileData>, available: int, size: int, table: Table)
    requires available >= size
    ensures Victims(lru, available, size) == 0 && lru[0..] == lru && Unlinkable(table, lru, 0)
  {
    assert FrontSize(lru, 0) == 0;
  }

  lemma FirstVictim(a: FileData, b: FileData, table: Table)
    requires a.size == b.size == 2 && HeadOfMany(table, a)
    ensures Victims([a, b], 0, 2) == 1 && [a, b][1..] == [b] && !Unlinkable(table, [a, b], 1)
  {
    hide HeadOfMany;
    assert FrontSize([a, b], 0) == 0 && FrontSize([a, b], 1) == 2;
    assert HeadOfMany(DeletedAll(table, [a, b], 0), [a, b][0]);
  }

  lemma OneSize(a: FileData)
    ensures TotalSize([a]) == a.size
  {
    assert [a][..0] == [];
  }

  lemma TwoSize(a: FileData, b: FileData)
    ensures TotalSize([a, b]) == a.size + b.size
  {
    OneSize(a);
    assert [a, b][..1] == [a];
  }

  /** From the start, the cache is out of order after three requests for names of which the first two hash alike: the
      third file takes the place of the first in the recency list, and the order is broken. */
  method ThreeRequests(a: FileData, b: FileData, c: FileData) returns (cache: Cache)
    requires a.size == b.size == c.size == 2 && a.name != b.name && b.name != c.name && a.name != c.name
    requires Hash(a.name) == Hash(b.name)
    ensures cache.lru == [b, c] && !cache.Valid()
  {
    hide Hash;
    hide Victims;
    hide Unlinkable;
    hide TotalSize;
    hide Chained;
    hide SameFiles;
    hide ByInsertion;
    hide ByLastUse;
    hide NamesDistinct;
    hide HeadOfMany;
    cache := new Cache(4);
    NoVictim(cache.lru, cache.available, 2, cache.table);
    cache.Store(a);
    assert cache.lru == [a] && cache.births == [a];
    OneSize(a);
    NoVictim(cache.lru, cache.available, 2, cache.table);
    cache.Store(b);
    assert cache.lru == [a, b] && cache.births == [a, b];
    TwoSize(a, b);
    FirstInserted(cache.table, a, b);
    FirstVictim(a, b, cache.table);
    cache.Store(c);
  }

  lemma UsedOk(table: Table, lru: seq<FileData>, available: int, cacheSize: int, history: seq<FileData>, f: FileData)
    requires Ok(table, lru, available, cacheSize, history) && f in lru
    ensures Ok(table, Touched(lru, f), available, cacheSize, history + [f])
  {
    hide Hash;
    InSomeChain(table, lru);
    InSomeChain(table, Touched(lru, f));
    SameName(lru, f);
    TouchedMembers(lru, f);
    TouchedByLastUse(lru, f, history);
  }

  lemma SameName(lru: seq<FileData>, f: FileData)
    requires NamesDistinct(lru) && f in lru
    ensures forall g :: g in lru && g.name == f.name ==> g == f
  {
  }

  lemma OneMoreVictim(lru: seq<FileData>, available: int, size: int, k: nat)
    requires k <= Victims(lru, available, size) && available + FrontSize(lru, k) < size <= available + TotalSize(lru)
    ensures k < |lru| && k < Victims(lru, available, size)
  {
    FrontAndRestSize(lru, |lru|);
  }

  lemma VictimInTable(table: Table, lru: seq<FileData>, k: nat)
    requires Chained(table) && SameFiles(table, lru) && NamesDistinct(lru) && k < |lru|
    ensures var t := DeletedAll(table, lru, k);
            InTable(t, lru[k]) && NamesDistinct(t[Hash(lru[k].name)]) &&
            DeletedAll(table, lru, k + 1) == Deleted(t, lru[k])
  {
    hide HashFrom;
    hide Deleted;
    hide HeadOfMany;
    hide NamesDistinct;
    hide Among;
    assert lru[k] in lru;
    DeletedAllExact(table, lru, k);
    AmongNext(lru, k);
  }

  lemma InsertBudget(lru: seq<FileData>, available: int, cacheSize: int, file: FileData, k: nat)
    requires available == cacheSize - TotalSize(lru) >= 0 && file.size <= cacheSize &&
             k == Victims(lru, available, file.size)
    ensures k == 0 <==> file.size <= available
    ensures available + FrontSize(lru, k) - file.size == cacheSize - TotalSize(lru[k..] + [file]) >= 0
  {
    FrontAndRestSize(lru, |lru|);
    FrontAndRestSize(lru, k);
    TotalConcat(lru[k..], [file]);
    assert [file][..0] == [] && TotalSize([file]) == file.size;
    assert FrontSize(lru, 0) == 0;
  }

  lemma InsertChains(table': Table, rest: seq<FileData>, file: FileData)
    requires Chained(table') && (forall g :: g in rest || InTable(table', g) ==> g.name != file.name)
    ensures Chained(Inserted(table', file))
    ensures SameFiles(Inserted(table', file), rest + [file]) <==> SameFiles(table', rest)
  {
    hide Chained;
    hide InTable;
    hide SameFiles;
    hide Inserted;
    InsertedExact(table', file);
    InSomeChain(table', rest);
    InSomeChain(Inserted(table', file), rest + [file]);
    assert forall g :: g in rest + [file] <==> g in rest || g == file;
  }

  /** Inserting a file of a new name keeps the cache in order, and within its budget, if and only if no victim is the
      first of several in its chain. */
  lemma InsertOk(table: Table, lru: seq<FileData>, available: int, cacheSize: int, history: seq<FileData>,
                 file: FileData, k: nat,
                 table': Table, rest: seq<FileData>, room: int)
    requires Ok(table, lru, available, cacheSize, history) && file.size <= cacheSize && forall f :: f in lru ==>
               f.name != file.name
    requires k == Victims(lru, available, file.size) && table' == DeletedAll(table, lru, k) && rest == lru[k..]
    requires room == available + FrontSize(lru, k)
    ensures k == 0 <==> file.size <= available
    ensures k == 0 ==> table' == table && rest == lru && room == available
    ensures NamesDistinct(rest) && Touched(rest, file) == rest + [file]
    ensures room - file.size == cacheSize - TotalSize(rest + [file]) >= 0
    ensures Ok(Inserted(table', file), rest + [file], room - file.size, cacheSize, history + [file]) <==>
              Unlinkable(table, lru, k)
  {
    InsertBudget(lru, available, cacheSize, file, k);
    EvictedExact(table, lru, k);
    FrontAndRest(lru, k);
    assert k == 0 ==> rest == lru;
    WithoutAbsent(rest, file);
    RestByLastUse(lru, history, k);
    InSomeChain(table, lru);
    InsertEnd(table', rest, file, history, room, cacheSize);
  }

  lemma InsertEnd(table': Table, rest: seq<FileData>, file: FileData, history: seq<FileData>, room: int, cacheSize: int)
    requires Chained(table') && (forall g :: g in rest || InTable(table', g) ==> g.name != file.name)
    requires NamesDistinct(rest) && ByLastUse(rest, history) && Touched(rest, file) == rest + [file]
    requires room - file.size == cacheSize - TotalSize(rest + [file]) >= 0
    ensures Ok(Inserted(table', file), rest + [file], room - file.size, cacheSize, history + [file]) <==>
              SameFiles(table', rest)
  {
    hide SameFiles;
    hide Chained;
    hide InTable;
    hide Inserted;
    InsertChains(table', rest, file);
    TouchedByLastUse(rest, file, history);
    forall i | 0 <= i < |rest| ensures rest[i].name != file.name {
      assert rest[i] in rest;
    }
  }

  lemma RestByLastUse(lru: seq<FileData>, history: seq<FileData>, k: nat)
    requires ByLastUse(lru, history) && k <= |lru|
    ensures ByLastUse(lru[k..], history)
  {
  }
}
