/**
 The index file (src/client/file.cpp:9-75) and the client's commands over it
 (src/client/cmd.cpp:105-166): which files are listed, and what they load.
 */
module Commands {
  import opened Keys
  import opened Codec
  import opened Files

  /** The name whose key the index is kept under: "index". */
  const INDEX: Bytes := [105, 110, 100, 101, 120]
  const SLASH: byte := 47

  /** The local file system: the regular files that open, by path. */
  type Disk = map<Bytes, Bytes>

  /** What follows the last slash of a path, as `path::filename` gives it. */
  function FileName(path: Bytes): Bytes {
    if SLASH !in path then path
    else FileName(path[IndexOfSlash(path) + 1..])
  }

  function IndexOfSlash(path: Bytes): (i: nat)
    requires SLASH in path
    ensures i < |path| && path[i] == SLASH
  {
    if path[0] == SLASH then 0 else 1 + IndexOfSlash(path[1..])
  }

  lemma NameOfRest(path: Bytes)
    ensures FileName(path) == if SLASH in path then FileName(path[IndexOfSlash(path) + 1..]) else path
  {
  }

  /** The name has no slash, and is all that follows the last one. */
  lemma {:induction false} FileNameMeans(path: Bytes)
    ensures var name := FileName(path);
      && SLASH !in name && |name| <= |path| && path[|path| - |name|..] == name
      && (|name| < |path| ==> path[|path| - |name| - 1] == SLASH)
  {
    hide FileName, IndexOfSlash;
    NameOfRest(path);
    if SLASH in path {
      FileNameMeans(path[IndexOfSlash(path) + 1..]);
      SameTail(path, IndexOfSlash(path), |FileName(path)|);
    } else {
      assert path[0..] == path;
    }
  }

  lemma SameTail(path: Bytes, i: nat, m: nat)
    requires i < |path| && path[i] == SLASH && m <= |path[i + 1..]|
    ensures var rest := path[i + 1..];
      && rest[|rest| - m..] == path[|path| - m..]
      && path[|path| - m - 1] == if m < |rest| then rest[|rest| - m - 1] else SLASH
  {
  }

  // ---------- The index ----------

  function EncodeNames(names: seq<Bytes>): Bytes {
    if names == [] then [] else names[0] + [NUL] + EncodeNames(names[1..])
  }

  /** Every NUL-terminated record, empty ones included; what follows the last NUL is dropped. */
  function Records(data: Bytes, curr: Bytes): seq<Bytes> {
    if data == [] then []
    else if data[0] != NUL then Records(data[1..], curr + [data[0]])
    else [curr] + Records(data[1..], [])
  }

  function NonEmpty(records: seq<Bytes>): seq<Bytes> {
    if records == [] then []
    else if records[0] == [] then NonEmpty(records[1..])
    else [records[0]] + NonEmpty(records[1..])
  }

  ghost predicate NulFree(names: seq<Bytes>) {
    forall n :: n in names ==> NUL !in n
  }

  lemma {:induction false} RecordsSkip(record: Bytes, rest: Bytes, curr: Bytes)
    requires NUL !in record
    ensures Records(record + [NUL] + rest, curr) == [curr + record] + Records(rest, [])
  {
    var data := record + [NUL] + rest;
    if record == [] {
      assert data[0] == NUL && data[1..] == rest && curr + record == curr;
    } else {
      assert data[1..] == record[1..] + [NUL] + rest;
      assert (curr + [record[0]]) + record[1..] == curr + record;
      RecordsSkip(record[1..], rest, curr + [record[0]]);
    }
  }

  lemma RecordsFirst(name: Bytes, rest: Bytes)
    requires NUL !in name
    ensures Records(name + [NUL] + rest, []) == [name] + Records(rest, [])
  {
    hide Records;
    RecordsSkip(name, rest, []);
    assert [] + name == name;
  }

  /** The records of an index are the names it was made of, followed by those of what was appended. */
  lemma {:induction false} RecordsOfNames(names: seq<Bytes>, more: Bytes)
    requires NulFree(names)
    ensures Records(EncodeNames(names) + more, []) == names + Records(more, [])
  {
    hide Records;
    if names == [] {
      assert EncodeNames(names) + more == more;
      assert names + Records(more, []) == Records(more, []);
    } else {
      var first, rest := names[0], EncodeNames(names[1..]);
      assert EncodeNames(names) + more == first + [NUL] + (rest + more);
      assert first in names && forall n :: n in names[1..] ==> n in names;
      hide EncodeNames;
      RecordsFirst(first, rest + more);
      RecordsOfNames(names[1..], more);
      assert [first] + (names[1..] + Records(more, [])) == names + Records(more, []);
    }
  }

  lemma {:induction false} EncodeNamesAppend(a: seq<Bytes>, b: seq<Bytes>)
    ensures EncodeNames(a + b) == EncodeNames(a) + EncodeNames(b)
  {
    if a == [] {
      assert a + b == b;
    } else {
      assert (a + b)[0] == a[0] && (a + b)[1..] == a[1..] + b;
      EncodeNamesAppend(a[1..], b);
    }
  }

  function IndexRecords(st: Store, hash: Bytes -> Key): Option<seq<Bytes>> {
    if hash(INDEX) in st then Some(Records(st[hash(INDEX)], [])) else None
  }

  /** One turn of the loops over the index. */
  lemma RecordsStep(data: Bytes, i: nat, curr: Bytes)
    requires i < |data|
    ensures data[i] != NUL ==> Records(data[i..], curr) == Records(data[i + 1..], curr + [data[i]])
    ensures data[i] == NUL ==> Records(data[i..], curr) == [curr] + Records(data[i + 1..], [])
  {
    assert data[i..][0] == data[i] && data[i..][1..] == data[i + 1..];
  }

  method InitIndex(dht: Dht, hash: Bytes -> Key)
    modifies dht
    ensures dht.store == old(dht.store)[hash(INDEX) := []]
  {
    ghost var _ := dht.Set(hash(INDEX), [], true);
  }

  /** `add_files_to_index_file`. */
  method AddFilesToIndex(dht: Dht, hash: Bytes -> Key, files: seq<Bytes>) returns (ok: bool)
    modifies dht
    ensures ok <==> hash(INDEX) in old(dht.store)
    ensures !ok ==> dht.store == old(dht.store)
    ensures ok ==> dht.store == old(dht.store)[hash(INDEX) := old(dht.store)[hash(INDEX)] + EncodeNames(files)]
  {
    var got := dht.Get(hash(INDEX));
    if got.None? {
      return false;
    }
    var data := got.value;
    var i := 0;
    assert files[0..] == files;
    while i < |files|
      invariant i <= |files|
      invariant data + EncodeNames(files[i..]) == got.value + EncodeNames(files)
    {
      assert files[i..][0] == files[i] && files[i..][1..] == files[i + 1..];
      assert data + EncodeNames(files[i..]) == (data + files[i] + [NUL]) + EncodeNames(files[i + 1..]);
      data := data + files[i] + [NUL];
      i := i + 1;
    }
    assert data + [] == data;
    ghost var _ := dht.Set(hash(INDEX), data, true);
    return true;
  }

  /** `get_index_files`: the non-empty records, appended to the caller's list. */
  method GetIndexFiles(dht: Dht, hash: Bytes -> Key, buffer: seq<Bytes>) returns (ok: bool, files: seq<Bytes>)
    ensures ok <==> IndexRecords(dht.store, hash).Some?
    ensures files == buffer + if ok then NonEmpty(IndexRecords(dht.store, hash).value) else []
  {
    var got := dht.Get(hash(INDEX));
    if got.None? {
      return false, buffer + [];
    }
    var data, curr := got.value, [];
    files := buffer;
    var i := 0;
    assert data[0..] == data;
    while i < |data|
      invariant i <= |data|
      invariant files + NonEmpty(Records(data[i..], curr)) == buffer + NonEmpty(Records(data, []))
    {
      hide Records;
      RecordsStep(data, i, curr);
      if data[i] == NUL {
        var rest := Records(data[i + 1..], []);
        assert ([curr] + rest)[1..] == rest;
        if |curr| > 0 {
          assert files + ([curr] + NonEmpty(rest)) == (files + [curr]) + NonEmpty(rest);
          files := files + [curr];
        }
        curr := [];
      } else {
        curr := curr + [data[i]];
      }
      i := i + 1;
    }
    assert data[i..] == [];
    assert files + [] == files;
    ok := true;
  }

  /** `file_exists`: some record of the index, empty ones included, is the name. */
  predicate Exists(st: Store, hash: Bytes -> Key, name: Bytes) {
    IndexRecords(st, hash).Some? && name in IndexRecords(st, hash).value
  }

  method FileExists(dht: Dht, hash: Bytes -> Key, name: Bytes) returns (found: bool)
    ensures found <==> Exists(dht.store, hash, name)
  {
    var got := dht.Get(hash(INDEX));
    if got.None? {
      return false;
    }
    var data, curr := got.value, [];
    var i := 0;
    assert data[0..] == data;
    while i < |data|
      invariant i <= |data|
      invariant name in Records(data, []) <==> name in Records(data[i..], curr)
    {
      hide Records;
      RecordsStep(data, i, curr);
      if data[i] == NUL {
        if curr == name {
          return true;
        }
        curr := [];
      } else {
        curr := curr + [data[i]];
      }
      i := i + 1;
    }
    assert data[i..] == [];
    return false;
  }

  // ---------- store_cmd ----------

  /** What the commands report. */
  datatype Line =
    | Initialized
    | Joined
    | AlreadyExists(file: Bytes)
    | ReadFailed(file: Bytes)
    | IndexNotWritten
    | IndexNotRead
    | LoadFailed
    | OpenFailed(file: Bytes)
    | StoredHeader
    | IndexHeader
    | Loaded(file: Bytes)
    | Name(file: Bytes)

  /** The store, the names added so far and the complaints. */
  datatype Progress = Progress(store: Store, added: seq<Bytes>, errors: seq<Line>)

  /** One file of a store command. */
  function StoreOne(p: Progress, hash: Bytes -> Key, disk: Disk, file: Bytes, takes: Choice): Progress {
    var name := FileName(file);
    if name in p.added || Exists(p.store, hash, name) then
      p.(errors := p.errors + [AlreadyExists(file)])
    else if file !in disk then
      p.(errors := p.errors + [ReadFailed(file)])
    else
      Progress(WriteFile(p.store, hash, disk[file], name, takes), p.added + [name], p.errors)
  }

  function StoreEach(p: Progress, hash: Bytes -> Key, disk: Disk, files: seq<Bytes>, takes: nat -> Choice): Progress {
    if files == [] then p
    else
      var n := |files| - 1;
      StoreOne(StoreEach(p, hash, disk, files[..n], takes), hash, disk, files[n], takes(n))
  }

  /** What a command does to the files, before the index. */
  function AfterFiles(st: Store, hash: Bytes -> Key, disk: Disk, files: seq<Bytes>, takes: nat -> Choice): Progress {
    StoreEach(Progress(st, [], []), hash, disk, files, takes)
  }

  /** The store after a whole store command, when the index is there. */
  function StoreFiles(st: Store, hash: Bytes -> Key, disk: Disk, files: seq<Bytes>, takes: nat -> Choice): Store {
    var p := AfterFiles(st, hash, disk, files, takes);
    if hash(INDEX) in p.store then
      p.store[hash(INDEX) := p.store[hash(INDEX)] + EncodeNames(p.added)]
    else
      p.store
  }

  lemma StoreNone(p: Progress, hash: Bytes -> Key, disk: Disk, takes: nat -> Choice)
    ensures StoreEach(p, hash, disk, [], takes) == p
  {
  }

  lemma {:induction false} SameChoicesEach(p: Progress, hash: Bytes -> Key, disk: Disk, files: seq<Bytes>,
                                           f: nat -> Choice, g: nat -> Choice)
    requires forall i :: 0 <= i < |files| ==> f(i) == g(i)
    ensures StoreEach(p, hash, disk, files, f) == StoreEach(p, hash, disk, files, g)
  {
    if files != [] {
      hide StoreOne;
      SameChoicesEach(p, hash, disk, files[..|files| - 1], f, g);
    }
  }

  function ObservedEach(took: seq<Choice>): nat -> Choice {
    (i: nat) => if i < |took| then took[i] else ((_: nat) => false)
  }

  /** One turn of the loop over the files. */
  lemma StoreNext(p: Progress, hash: Bytes -> Key, disk: Disk, files: seq<Bytes>, i: nat, took: seq<Choice>, t: Choice)
    requires i < |files| && |took| == i
    ensures StoreEach(p, hash, disk, files[..i + 1], ObservedEach(took + [t])) ==
      StoreOne(StoreEach(p, hash, disk, files[..i], ObservedEach(took)), hash, disk, files[i], t)
  {
    hide StoreOne;
    assert files[..i + 1][..i] == files[..i];
    assert ObservedEach(took + [t])(i) == t;
    SameChoicesEach(p, hash, disk, files[..i], ObservedEach(took + [t]), ObservedEach(took));
  }

  function Names(files: seq<Bytes>): (lines: seq<Line>)
    ensures |lines| == |files|
  {
    seq(|files|, i requires 0 <= i < |files| => Name(files[i]))
  }

  /** One line a name, in order. */
  lemma NamesInOrder(files: seq<Bytes>, i: nat)
    requires i < |files|
    ensures Names(files)[i] == Name(files[i])
  {
  }

  /** A client: its local files, the chunk store behind its sessions, and what its last commands said. */
  class Client {
    const dht: Dht
    const hash: Bytes -> Key
    var disk: Disk
    var cmdErr: seq<Line>
    var cmdOut: seq<Line>

    /** `join_cmd`: a client of sessions whose index is already there. */
    constructor (dht: Dht, hash: Bytes -> Key, disk: Disk)
      ensures this.dht == dht && this.hash == hash && this.disk == disk
      ensures cmdErr == [] && cmdOut == [Joined]
    {
      this.dht, this.hash, this.disk := dht, hash, disk;
      cmdErr, cmdOut := [], [Joined];
    }

    /** `bootstrap_cmd`, once its sessions run: the index starts empty. */
    constructor Bootstrap(dht: Dht, hash: Bytes -> Key, disk: Disk)
      modifies dht
      ensures this.dht == dht && this.hash == hash && this.disk == disk
      ensures dht.store == old(dht.store)[hash(INDEX) := []]
      ensures cmdErr == [] && cmdOut == [Initialized]
    {
      this.dht, this.hash, this.disk := dht, hash, disk;
      cmdErr, cmdOut := [], [Initialized];
      new;
      InitIndex(dht, hash);
    }

    /** Appends one name a line. */
    method PushNames(files: seq<Bytes>)
      modifies this`cmdOut
      ensures cmdOut == old(cmdOut) + Names(files)
    {
      var i := 0;
      while i < |files|
        invariant i <= |files|
        invariant cmdOut == old(cmdOut) + Names(files)[..i]
      {
        cmdOut := cmdOut + [Name(files[i])];
        i := i + 1;
      }
      assert Names(files)[..i] == Names(files);
    }

    /** `store_cmd`: the new store, the complaints and the output, whichever unforced sets took effect. */
    method StoreCmd(files: seq<Bytes>) returns (ok: bool, ghost takes: nat -> Choice)
      modifies dht, this`cmdErr, this`cmdOut
      ensures
        var p := AfterFiles(old(dht.store), hash, disk, files, takes);
        && dht.store == StoreFiles(old(dht.store), hash, disk, files, takes)
        && ok == (hash(INDEX) in p.store)
        && cmdErr == old(cmdErr) + p.errors + (if ok then [] else [IndexNotWritten])
        && cmdOut == if ok then [StoredHeader] + Names(p.added) else old(cmdOut)
    {
      hide StoreEach, Names, ObservedEach;
      ghost var p0 := Progress(dht.store, [], []);
      ghost var p := p0;
      ghost var took: seq<Choice> := [];
      ghost var none: Choice := _ => false;
      StoreNone(p0, hash, disk, ObservedEach([]));
      assert files[..0] == [];
      var addedFiles: seq<Bytes> := [];
      var i := 0;
      while i < |files|
        invariant i <= |files| && |took| == i
        invariant cmdOut == old(cmdOut) && cmdErr == old(cmdErr) + p.errors
        invariant dht.store == p.store && addedFiles == p.added
        invariant p == StoreEach(p0, hash, disk, files[..i], ObservedEach(took))
      {
        hide Exists, WriteFile, FileName, StoreEach;
        var file := files[i];
        var name := FileName(file);
        var there := FileExists(dht, hash, name);
        if name in addedFiles || there {
          StoreNext(p0, hash, disk, files, i, took, none);
          p, took, i := StoreOne(p, hash, disk, file, none), took + [none], i + 1;
          cmdErr := cmdErr + [AlreadyExists(file)];
          continue;
        }
        var wrote;
        ghost var t;
        wrote, t := WriteFromFile(dht, hash, if file in disk then Some(disk[file]) else None, name);
        StoreNext(p0, hash, disk, files, i, took, t);
        p, took, i := StoreOne(p, hash, disk, file, t), took + [t], i + 1;
        if !wrote {
          cmdErr := cmdErr + [ReadFailed(file)];
          continue;
        }
        addedFiles := addedFiles + [name];
      }
      assert files[..i] == files;
      takes := ObservedEach(took);
      ok := AddFilesToIndex(dht, hash, addedFiles);
      if !ok {
        cmdErr := cmdErr + [IndexNotWritten];
        return;
      }
      cmdOut := [StoredHeader];
      PushNames(addedFiles);
    }

    /** `load_cmd`; `opens` says whether the output file can be opened, `threw` whether the read threw. */
    method LoadCmd(inputFiles: seq<Bytes>, outputFile: Bytes, opens: bool) returns (ok: bool, threw: bool)
      modifies this
      ensures
        var r := ReadFiles(dht.store, hash, inputFiles);
        && threw == r.Threw?
        && ok == (r.Data? && opens)
        && disk == (if ok then old(disk)[outputFile := r.bytes] else old(disk))
        && cmdErr == (if r.Failed? then [LoadFailed] else if ok || threw then old(cmdErr) else [OpenFailed(outputFile)])
        && cmdOut == (if ok then [Loaded(outputFile)] else old(cmdOut))
    {
      var r := ReadInFiles(dht, hash, inputFiles);
      match r {
        case Threw =>
          return false, true;
        case Failed =>
          cmdErr := [LoadFailed];
          return false, false;
        case Data(bytes) =>
          if !opens {
            cmdErr := [OpenFailed(outputFile)];
            return false, false;
          }
          disk := disk[outputFile := bytes];
          cmdOut := [Loaded(outputFile)];
          return true, false;
      }
    }

    method ListCmd() returns (ok: bool)
      modifies this`cmdErr, this`cmdOut
      ensures
        var records := IndexRecords(dht.store, hash);
        && ok == records.Some?
        && cmdErr == (if ok then old(cmdErr) else [IndexNotRead])
        && cmdOut == (if ok then old(cmdOut) + [IndexHeader] + Names(NonEmpty(records.value)) else old(cmdOut))
    {
      var got, files := GetIndexFiles(dht, hash, []);
      if !got {
        cmdErr := [IndexNotRead];
        return false;
      }
      assert [] + files == files;
      cmdOut := cmdOut + [IndexHeader];
      PushNames(files);
      return true;
    }
  }
}
