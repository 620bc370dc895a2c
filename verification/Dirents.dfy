/** fs/dir.c: a directory as a packed log of records in the bytes of its file. */
module Dirents {
  import opened Bytes

  const HEADER_SIZE: nat := 8
  const INVALID_INODE_NR: int := -1
  const ENOENT: int := 2
  const EEXIST: int := 17

  datatype Option<T> = None | Some(value: T)

  /** `struct dirent`, with the bytes that follow it */
  datatype Dirent = Dirent(nameLen: int, inodeNr: int, chars: seq<Byte>)

  /** The characters of a C string, without the NUL that ends it */
  predicate IsName(name: seq<Byte>) {
    |name| < 0x7fff_ff00 && forall i :: 0 <= i < |name| ==> name[i] != 0
  }

  /** A record of the log: the entry `name`, or, if the inode number is negative, the tombstone of an entry */
  datatype Rec = Rec(inodeNr: int, name: seq<Byte>) {
    predicate Valid() {
      IsS32(inodeNr) && IsName(name)
    }

    predicate Live() {
      inodeNr >= 0
    }

    predicate Named(n: seq<Byte>) {
      Live() && name == n
    }

    function Size(): nat {
      HEADER_SIZE + |name| + 1
    }

    function Encode(): (b: seq<Byte>)
      ensures |b| == Size()
    {
      EncodeWords([|name| + 1, inodeNr]) + name + [0]
    }
  }

  /** The bytes of the records, one after the other */
  function EncodeAll(recs: seq<Rec>): seq<Byte> {
    if recs == [] then [] else EncodeAll(recs[..|recs| - 1]) + recs[|recs| - 1].Encode()
  }

  /** The offset of record i */
  function Start(recs: seq<Rec>, i: nat): nat
    requires i <= |recs|
  {
    |EncodeAll(recs[..i])|
  }

  /** The directory consists of whole records, and ends with the last of them. */
  ghost predicate Packed(data: seq<Byte>, recs: seq<Rec>) {
    data == EncodeAll(recs) && forall i :: 0 <= i < |recs| ==> recs[i].Valid()
  }

  lemma {:induction false} EncodeConcat(a: seq<Rec>, b: seq<Rec>)
    ensures EncodeAll(a + b) == EncodeAll(a) + EncodeAll(b)
  {
    hide Rec.Encode;
    if b == [] {
      assert a + b == a;
    } else {
      var init := b[..|b| - 1];
      EncodeConcat(a, init);
      assert (a + b)[..|a + b| - 1] == a + init;
    }
  }

  /** The log before, at, and after record i */
  lemma EncodeSplit(recs: seq<Rec>, i: nat)
    requires i < |recs|
    ensures EncodeAll(recs) == EncodeAll(recs[..i]) + recs[i].Encode() + EncodeAll(recs[i + 1..])
    ensures Start(recs, i + 1) == Start(recs, i) + recs[i].Size() <= |EncodeAll(recs)|
  {
    assert recs == recs[..i + 1] + recs[i + 1..];
    EncodeConcat(recs[..i + 1], recs[i + 1..]);
    assert recs[..i + 1][..i] == recs[..i];
  }

  // ---- strcmp ----

  /** The C string at the start of chars */
  function CString(chars: seq<Byte>): seq<Byte> {
    if chars == [] || chars[0] == 0 then [] else [chars[0]] + CString(chars[1..])
  }

  lemma {:induction false} NameOfChars(name: seq<Byte>)
    requires IsName(name)
    ensures CString(name + [0]) == name
  {
    if name != [] {
      NameOfChars(name[1..]);
      assert (name + [0])[1..] == name[1..] + [0];
    }
  }

  // ---- Reading ----

  /** What testfs_read_data copies: at most the bytes up to the end of the file */
  function ReadBytes(data: seq<Byte>, start: nat, size: nat): (b: seq<Byte>)
    requires start <= |data|
    ensures |b| <= size
  {
    if start + size <= |data| then data[start..start + size] else data[start..]
  }

  lemma RecordParts(r: Rec)
    requires r.Valid()
    ensures Word(r.Encode()[..HEADER_SIZE], 0) == |r.name| + 1 && Word(r.Encode()[..HEADER_SIZE], 1) == r.inodeNr
    ensures r.Encode()[HEADER_SIZE..] == r.name + [0]
  {
    var words := [|r.name| + 1, r.inodeNr];
    assert r.Encode()[..HEADER_SIZE] == EncodeWords(words);
    EncodeThenWord(words, 0);
    EncodeThenWord(words, 1);
  }

  lemma RecordAt(data: seq<Byte>, recs: seq<Rec>, i: nat)
    requires Packed(data, recs) && i < |recs|
    ensures Start(recs, i) + recs[i].Size() == Start(recs, i + 1) <= |data|
    ensures data[Start(recs, i)..Start(recs, i + 1)] == recs[i].Encode()
  {
    EncodeSplit(recs, i);
  }

  /** A record is read back as it was written. */
  lemma DirentAt(data: seq<Byte>, recs: seq<Rec>, i: nat)
    requires Packed(data, recs) && i < |recs|
    ensures var at, len := Start(recs, i), |recs[i].name| + 1;
            at + HEADER_SIZE + len == Start(recs, i + 1) <= |data| &&
            Word(data[at..at + HEADER_SIZE], 0) == len && Word(data[at..at + HEADER_SIZE], 1) == recs[i].inodeNr &&
            data[at + HEADER_SIZE..at + HEADER_SIZE + len] == recs[i].name + [0]
  {
    hide Rec.Encode;
    RecordAt(data, recs, i);
    RecordParts(recs[i]);
    var at, b := Start(recs, i), data[Start(recs, i)..Start(recs, i + 1)];
    assert data[at..at + HEADER_SIZE] == b[..HEADER_SIZE];
    assert data[at + HEADER_SIZE..Start(recs, i + 1)] == b[HEADER_SIZE..];
  }

  /** testfs_next_dirent, at record i: it delivers the record, and moves on to the next. */
  method NextDirent(data: seq<Byte>, offset: nat, ghost recs: seq<Rec>, ghost i: nat)
    returns (d: Option<Dirent>, next: nat)
    requires Packed(data, recs) && i <= |recs| && offset == Start(recs, i)
    ensures i == |recs| ==> d == None && next == offset == |data|
    ensures i < |recs| ==>
              d == Some(Dirent(|recs[i].name| + 1, recs[i].inodeNr, recs[i].name + [0])) &&
              next == Start(recs, i + 1) <= |data| &&
              CString(d.value.chars) == recs[i].name
  {
    next := offset;
    if i < |recs| {
      DirentAt(data, recs, i);
      NameOfChars(recs[i].name);
    } else {
      assert recs[..i] == recs;
    }
    if offset >= |data| {
      return None, next;
    }
    var header := ReadBytes(data, offset, HEADER_SIZE);
    next := next + HEADER_SIZE;
    var chars := ReadBytes(data, next, Word(header, 0));
    next := next + Word(header, 0);
    d := Some(Dirent(Word(header, 0), Word(header, 1), chars));
  }

  // ---- Lookup ----

  /** The first live record with this name, or the number of records */
  ghost function IndexOf(recs: seq<Rec>, name: seq<Byte>, from: nat): (i: nat)
    requires from <= |recs|
    ensures from <= i <= |recs|
    ensures forall k :: from <= k < i ==> !recs[k].Named(name)
    ensures i < |recs| ==> recs[i].Named(name)
    decreases |recs| - from
  {
    if from == |recs| || recs[from].Named(name) then from else IndexOf(recs, name, from + 1)
  }

  /** testfs_dir_name_to_inode_nr */
  method NameToInodeNr(data: seq<Byte>, name: seq<Byte>, ghost recs: seq<Rec>) returns (ret: int)
    requires Packed(data, recs) && IsName(name)
    ensures var i := IndexOf(recs, name, 0);
            ret == if i == |recs| then -ENOENT else recs[i].inodeNr
  {
    ret := -ENOENT;
    var offset := 0;
    ghost var i := 0;
    while ret < 0
      invariant i <= |recs| && offset == Start(recs, i)
      invariant ret < 0 ==> ret == -ENOENT && IndexOf(recs, name, 0) == IndexOf(recs, name, i)
      invariant ret >= 0 ==> IndexOf(recs, name, 0) < |recs| && ret == recs[IndexOf(recs, name, 0)].inodeNr
      decreases |recs| - i
    {
      var d;
      d, offset := NextDirent(data, offset, recs, i);
      if d == None {
        break;
      }
      if !(d.value.inodeNr < 0 || CString(d.value.chars) != name) {
        ret := d.value.inodeNr;
      }
      i := i + 1;
    }
  }

  // ---- Writing ----

  /** What testfs_write_data makes of the bytes of the file */
  function WriteBytes(data: seq<Byte>, start: nat, buf: seq<Byte>): seq<Byte>
    requires start <= |data|
  {
    data[..start] + buf + if start + |buf| <= |data| then data[start + |buf|..] else []
  }

  /** Rewriting a record in its place keeps the boundaries of all others. */
  lemma WriteInPlace(data: seq<Byte>, recs: seq<Rec>, i: nat, r: Rec)
    requires Packed(data, recs) && i < |recs| && r.Valid() && r.Size() == recs[i].Size()
    ensures Start(recs, i) <= |data| && Packed(WriteBytes(data, Start(recs, i), r.Encode()), recs[i := r])
  {
    hide Rec.Encode;
    hide EncodeAll;
    var new' := recs[i := r];
    EncodeSplit(recs, i);
    EncodeSplit(new', i);
    assert new'[..i] == recs[..i] && new'[i + 1..] == recs[i + 1..];
    Overwrite(EncodeAll(recs[..i]), recs[i].Encode(), EncodeAll(recs[i + 1..]), r.Encode());
  }

  lemma Overwrite(before: seq<Byte>, mid: seq<Byte>, after: seq<Byte>, mid': seq<Byte>)
    requires |mid'| == |mid|
    ensures WriteBytes(before + mid + after, |before|, mid') == before + mid' + after
  {
  }

  lemma WriteAtEnd(data: seq<Byte>, recs: seq<Rec>, r: Rec)
    requires Packed(data, recs) && r.Valid()
    ensures Packed(WriteBytes(data, |data|, r.Encode()), recs + [r])
  {
    assert (recs + [r])[..|recs|] == recs;
  }

  /** What testfs_write_dirent writes; it reports the number of bytes. */
  method WriteDirent(data: seq<Byte>, name: seq<Byte>, len: nat, inodeNr: int, offset: nat)
    returns (ret: int, data': seq<Byte>)
    requires IsName(name) && len == |name| + 1 && 0 <= inodeNr && offset <= |data|
    ensures ret == Rec(inodeNr, name).Size() && data' == WriteBytes(data, offset, Rec(inodeNr, name).Encode())
  {
    var d := EncodeWords([len, inodeNr]) + name + [0];
    return |d|, WriteBytes(data, offset, d);
  }

  /** Where testfs_add_dirent stops: at a live entry of the same name, or at a tombstone of the same length */
  predicate Stops(r: Rec, name: seq<Byte>) {
    if r.Live() then r.name == name else |r.name| == |name|
  }

  ghost function StopOf(recs: seq<Rec>, name: seq<Byte>, from: nat): (i: nat)
    requires from <= |recs|
    ensures from <= i <= |recs|
    ensures forall k :: from <= k < i ==> !Stops(recs[k], name)
    ensures i < |recs| ==> Stops(recs[i], name)
    decreases |recs| - from
  {
    if from == |recs| || Stops(recs[from], name) then from else StopOf(recs, name, from + 1)
  }

  /** The log with an entry put into the place where testfs_add_dirent stops, or at the end */
  ghost function Added(recs: seq<Rec>, name: seq<Byte>, inodeNr: int): seq<Rec> {
    var i := StopOf(recs, name, 0);
    if i == |recs| then recs + [Rec(inodeNr, name)] else recs[i := Rec(inodeNr, name)]
  }

  /** testfs_add_dirent, up to the writing: where the entry goes */
  method FreePlace(data: seq<Byte>, name: seq<Byte>, ghost recs: seq<Rec>) returns (ret: int, at: nat)
    requires Packed(data, recs) && IsName(name)
    ensures var i := StopOf(recs, name, 0);
            at == Start(recs, i) <= |data| && (i == |recs| ==> at == |data|) &&
            ret == if i < |recs| && recs[i].Live() then -EEXIST else 0
  {
    at := 0;
    var offset := 0;
    var found := false;
    ret := 0;
    var len := |name| + 1;
    ghost var i, last := 0, 0;
    while ret == 0 && !found
      invariant i <= |recs| && offset == Start(recs, i) && last <= i
      invariant ret == 0 || ret == -EEXIST
      invariant ret == 0 && !found ==> StopOf(recs, name, 0) == StopOf(recs, name, i)
      invariant ret != 0 || found ==>
                  last < |recs| && last == StopOf(recs, name, 0) && at == Start(recs, last) <= |data|
      invariant ret != 0 ==> recs[last].Live()
      invariant found ==> ret == 0 && !recs[last].Live()
      decreases |recs| - i, ret == 0 && !found
    {
      at := offset;
      last := i;
      var d;
      d, offset := NextDirent(data, offset, recs, i);
      if d == None {
        break;
      }
      RecordAt(data, recs, i);
      i := i + 1;
      if d.value.inodeNr >= 0 && CString(d.value.chars) == name {
        ret := -EEXIST;
        continue;
      }
      if d.value.inodeNr >= 0 || d.value.nameLen != len {
        continue;
      }
      found := true;
    }
  }

  /** testfs_add_dirent: it stops at the first record that is live and has the name, which is an error, or that is a
      tombstone of the same length, which is used again; and otherwise it appends. */
  method AddDirent(data: seq<Byte>, name: seq<Byte>, inodeNr: int, ghost recs: seq<Rec>)
    returns (ret: int, data': seq<Byte>)
    requires Packed(data, recs) && IsName(name) && 0 <= inodeNr && IsS32(inodeNr)
    ensures var i := StopOf(recs, name, 0);
            if i < |recs| && recs[i].Live() then ret == -EEXIST && data' == data
            else ret == Rec(inodeNr, name).Size() && Packed(data', Added(recs, name, inodeNr))
    ensures var i := StopOf(recs, name, 0);
            (forall k :: 0 <= k < i ==> if recs[k].Live() then recs[k].name != name else |recs[k].name| != |name|) &&
            if i == |recs| then ret > 0 && Packed(data', recs + [Rec(inodeNr, name)])
            else if recs[i].Live() then recs[i].name == name && ret < 0
            else |recs[i].name| == |name| && ret > 0 && Packed(data', recs[i := Rec(inodeNr, name)])
  {
    data' := data;
    var at;
    ret, at := FreePlace(data, name, recs);
    if ret < 0 {
      return;
    }
    ghost var i, r := StopOf(recs, name, 0), Rec(inodeNr, name);
    if i < |recs| {
      WriteInPlace(data, recs, i, r);
    } else {
      WriteAtEnd(data, recs, r);
    }
    ret, data' := WriteDirent(data, name, |name| + 1, inodeNr, at);
  }

  // ---- The directory as a finite map ----

  ghost function LiveNames(recs: seq<Rec>): set<seq<Byte>> {
    set i | 0 <= i < |recs| && recs[i].Live() :: recs[i].name
  }

  /** The entries by name; of several with the same name, the first counts. */
  ghost function Names(recs: seq<Rec>): map<seq<Byte>, int> {
    map n | n in LiveNames(recs) && IndexOf(recs, n, 0) < |recs| :: recs[IndexOf(recs, n, 0)].inodeNr
  }

  ghost predicate Unique(recs: seq<Rec>) {
    forall i, j :: 0 <= i < j < |recs| && recs[i].Live() && recs[j].Live() ==> recs[i].name != recs[j].name
  }

  lemma FirstIndex(recs: seq<Rec>, name: seq<Byte>, i: nat)
    requires i < |recs| && recs[i].Named(name) && forall k :: 0 <= k < i ==> !recs[k].Named(name)
    ensures IndexOf(recs, name, 0) == i && name in Names(recs) && Names(recs)[name] == recs[i].inodeNr
  {
    var j := IndexOf(recs, name, 0);
    assert !(j < i);
    assert name in LiveNames(recs);
  }

  /** testfs_dir_name_to_inode_nr looks the name up in the map. */
  lemma LookupIsMap(recs: seq<Rec>, name: seq<Byte>)
    ensures name in Names(recs) <==> IndexOf(recs, name, 0) < |recs|
    ensures name in Names(recs) ==> Names(recs)[name] == recs[IndexOf(recs, name, 0)].inodeNr >= 0
  {
    var i := IndexOf(recs, name, 0);
    if i < |recs| {
      FirstIndex(recs, name, i);
    }
  }

  lemma SameIndex(recs: seq<Rec>, recs': seq<Rec>, n: seq<Byte>)
    requires |recs| <= |recs'|
    requires forall k :: 0 <= k < |recs| && (recs[k].Named(n) || recs'[k].Named(n)) ==> recs'[k] == recs[k]
    requires forall k :: |recs| <= k < |recs'| ==> !recs'[k].Named(n)
    ensures n in Names(recs) <==> n in Names(recs')
    ensures n in Names(recs) ==> Names(recs')[n] == Names(recs)[n]
  {
    LookupIsMap(recs, n);
    LookupIsMap(recs', n);
    var i, j := IndexOf(recs, n, 0), IndexOf(recs', n, 0);
    if j < |recs| {
      assert recs[j] == recs'[j];
    }
    if i < |recs| {
      FirstIndex(recs', n, i);
    }
  }

  lemma AddKeepsUnique(recs: seq<Rec>, name: seq<Byte>, inodeNr: int)
    requires Unique(recs) && name !in Names(recs) && inodeNr >= 0
    ensures Unique(Added(recs, name, inodeNr))
    ensures var i := StopOf(recs, name, 0); i < |recs| ==> !recs[i].Live()
  {
    LookupIsMap(recs, name);
  }

  lemma AddedName(recs: seq<Rec>, name: seq<Byte>, inodeNr: int, n: seq<Byte>)
    requires name !in Names(recs) && inodeNr >= 0
    ensures var names' := Names(Added(recs, name, inodeNr));
            if n == name then n in names' && names'[n] == inodeNr
            else (n in names' <==> n in Names(recs)) && (n in names' ==> names'[n] == Names(recs)[n])
  {
    var recs' := Added(recs, name, inodeNr);
    LookupIsMap(recs, name);
    if n == name {
      FirstIndex(recs', name, StopOf(recs, name, 0));
    } else {
      SameIndex(recs, recs', n);
    }
  }

  /** Adding a name that is not there inserts it, and keeps the live names unique. */
  lemma AddIsInsert(recs: seq<Rec>, name: seq<Byte>, inodeNr: int)
    requires Unique(recs) && name !in Names(recs) && inodeNr >= 0
    ensures var recs' := Added(recs, name, inodeNr);
            Unique(recs') && Names(recs') == Names(recs)[name := inodeNr]
    ensures var i := StopOf(recs, name, 0); i < |recs| ==> !recs[i].Live()
  {
    hide Names;
    hide Added;
    hide Unique;
    AddKeepsUnique(recs, name, inodeNr);
    forall n {
      AddedName(recs, name, inodeNr, n);
    }
  }

  /** Without the lookup before it, testfs_add_dirent could add a name twice: it does so, or fails, if the name is
      live, depending on whether a tombstone of the same length comes first. */
  lemma AddAloneExact(recs: seq<Rec>, name: seq<Byte>, inodeNr: int)
    requires Unique(recs) && inodeNr >= 0
    ensures var i, j := StopOf(recs, name, 0), IndexOf(recs, name, 0);
            !(i < |recs| && recs[i].Live()) ==> (Unique(Added(recs, name, inodeNr)) <==> j == |recs|)
    ensures var i, j := StopOf(recs, name, 0), IndexOf(recs, name, 0);
            i < |recs| && recs[i].Live() <==>
            j < |recs| && forall k :: 0 <= k < j ==> recs[k].Live() || |recs[k].name| != |name|
  {
    var i, j := StopOf(recs, name, 0), IndexOf(recs, name, 0);
    var recs' := Added(recs, name, inodeNr);
    LookupIsMap(recs, name);
    if j == |recs| {
      AddIsInsert(recs, name, inodeNr);
    } else if i < j {
      assert Stops(recs[i], name) && !recs[i].Named(name);
      assert recs'[i].Live() && recs'[j].Live() && recs'[i].name == recs'[j].name;
    } else {
      assert Stops(recs[j], name);
    }
  }

  lemma RemovedName(recs: seq<Rec>, name: seq<Byte>, n: seq<Byte>)
    requires Unique(recs) && name in Names(recs)
    ensures var i := IndexOf(recs, name, 0);
            i < |recs| && var names' := Names(recs[i := Rec(INVALID_INODE_NR, name)]);
            if n == name then n !in names'
            else (n in names' <==> n in Names(recs)) && (n in names' ==> names'[n] == Names(recs)[n])
  {
    LookupIsMap(recs, name);
    var i := IndexOf(recs, name, 0);
    var recs' := recs[i := Rec(INVALID_INODE_NR, name)];
    LookupIsMap(recs', n);
    if n != name {
      SameIndex(recs, recs', n);
    }
  }

  /** Making the entry a tombstone deletes the name. */
  lemma RemoveIsDelete(recs: seq<Rec>, name: seq<Byte>)
    requires Unique(recs) && name in Names(recs)
    ensures var i := IndexOf(recs, name, 0);
            i < |recs| && var recs' := recs[i := Rec(INVALID_INODE_NR, name)];
            Unique(recs') && Names(recs') == Names(recs) - {name}
  {
    hide Names;
    forall n {
      RemovedName(recs, name, n);
    }
  }
}
