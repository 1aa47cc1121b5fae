/**
 What the client says and reads over whole runs (src/client/cmd.cpp:120-166): which
 files a store command complains of, and which loads succeed.
 */
module Reports {
  import opened Keys
  import opened Codec
  import opened Files
  import opened Labels
  import opened Commands
  import opened Catalogs
  import opened Readings

  // ---------- Complaints ----------

  /** By the catalogue alone: names that are in it, and of the others the files that do not open. */
  function Complaints(catalog: seq<Entry>, disk: Disk, files: seq<Bytes>): seq<Line> {
    if files == [] then []
    else
      var n := |files| - 1;
      var names := NamesOf(Keep(catalog, Readable(disk, files[..n])));
      Complaints(catalog, disk, files[..n]) +
      if FileName(files[n]) in names then [AlreadyExists(files[n])]
      else if files[n] !in disk then [ReadFailed(files[n])]
      else []
  }

  lemma OneComplains(p: Progress, hash: Bytes -> Key, u: set<Bytes>, listed: seq<Bytes>, catalog: seq<Entry>,
                     disk: Disk, file: Bytes, takes: Choice)
    requires Holds(p.store, hash, u, listed, catalog) && NamesOf(catalog) == listed + p.added
    ensures StoreOne(p, hash, disk, file, takes).errors ==
      p.errors +
      if FileName(file) in NamesOf(catalog) then [AlreadyExists(file)]
      else if file !in disk then [ReadFailed(file)]
      else []
  {
    hide Holds, WriteFile, FileName, IndexRecords, CatalogLabels;
    ListedInCatalog(p, hash, u, listed, catalog);
    assert p.errors + [] == p.errors;
  }

  /** A store command complains of exactly the files it does not take, each with its reason, in order. */
  lemma {:induction false} StoreComplains(st: Store, hash: Bytes -> Key, u: set<Bytes>, catalog: seq<Entry>,
                                          disk: Disk, files: seq<Bytes>, takes: nat -> Choice)
    requires CollisionFree(hash, u) && Holds(st, hash, u, NamesOf(catalog), catalog)
    requires var after := Keep(catalog, Readable(disk, files));
      MadeOf(after, u) && ((forall i, j :: !takes(i)(j)) || Apart(after))
    ensures AfterFiles(st, hash, disk, files, takes).errors == Complaints(catalog, disk, files)
  {
    hide Holds, StoreOne, FileName, MadeOf, Apart, CollisionFree;
    if files != [] {
      var n := |files| - 1;
      var front, file := files[..n], files[n];
      assert files == front + [file];
      var kept := Keep(catalog, Readable(disk, front));
      ReadableAppend(disk, front, file);
      KeepAppend(catalog, Readable(disk, front), Readable(disk, [file]));
      KeepGrows(kept, Readable(disk, [file]));
      FewerAreApart(kept, Keep(catalog, Readable(disk, files)), u);
      StoreComplains(st, hash, u, catalog, disk, front, takes);
      StoreEachHolds(st, hash, u, catalog, disk, front, takes);
      hide Keep, Readable;
      OneComplains(AfterFiles(st, hash, disk, front, takes), hash, u, NamesOf(catalog), kept, disk, file, takes(n));
    }
  }

  // ---------- Nothing else is stored ----------

  function HashesOf(hash: Bytes -> Key, u: set<Bytes>): set<Key> {
    set s | s in u :: hash(s)
  }

  lemma {:induction false} SetsOnlyAdd(st: Store, ops: seq<SetOp>, takes: Choice, keys: set<Key>)
    requires forall op :: op in ops ==> op.k in keys
    ensures SetAll(st, ops, takes).Keys <= st.Keys + keys
  {
    if ops != [] {
      assert forall op :: op in ops[..|ops| - 1] ==> op in ops;
      SetsOnlyAdd(st, ops[..|ops| - 1], takes, keys);
      assert ops[|ops| - 1] in ops;
    }
  }

  lemma WriteOnlyAdds(st: Store, hash: Bytes -> Key, u: set<Bytes>, content: Bytes, name: Bytes, takes: Choice)
    requires Within(content, u) && name in u
    ensures WriteFile(st, hash, content, name, takes).Keys <= st.Keys + HashesOf(hash, u)
  {
    hide Chunks, Encode, HashAll, SetAll;
    var chunks := Chunks(content);
    forall op | op in FileOps(hash, content, name) ensures op.k in HashesOf(hash, u) {
      var i :| 0 <= i < |FileOps(hash, content, name)| && FileOps(hash, content, name)[i] == op;
      if i < |chunks| {
        assert op.k == hash(chunks[i]) && chunks[i] in chunks;
      }
    }
    SetsOnlyAdd(st, FileOps(hash, content, name), takes, HashesOf(hash, u));
  }

  lemma OneOnlyAdds(p: Progress, hash: Bytes -> Key, u: set<Bytes>, listed: seq<Bytes>, catalog: seq<Entry>,
                    disk: Disk, file: Bytes, takes: Choice)
    requires Holds(p.store, hash, u, listed, catalog) && NamesOf(catalog) == listed + p.added
    requires MadeOf(Keep(catalog, Readable(disk, [file])), u)
    ensures StoreOne(p, hash, disk, file, takes).store.Keys <= p.store.Keys + HashesOf(hash, u)
  {
    hide Holds, WriteFile, FileName, IndexRecords, CatalogLabels, Keep, Readable, HashesOf;
    KeepOne(catalog, disk, file);
    ListedInCatalog(p, hash, u, listed, catalog);
    if file in disk && FileName(file) !in NamesOf(catalog) {
      var e := Entry(FileName(file), disk[file]);
      assert e in catalog + [e];
      WriteOnlyAdds(p.store, hash, u, disk[file], FileName(file), takes);
    }
  }

  lemma {:induction false} EachOnlyAdds(st: Store, hash: Bytes -> Key, u: set<Bytes>, catalog: seq<Entry>,
                                        disk: Disk, files: seq<Bytes>, takes: nat -> Choice)
    requires CollisionFree(hash, u) && Holds(st, hash, u, NamesOf(catalog), catalog)
    requires var after := Keep(catalog, Readable(disk, files));
      MadeOf(after, u) && ((forall i, j :: !takes(i)(j)) || Apart(after))
    ensures AfterFiles(st, hash, disk, files, takes).store.Keys <= st.Keys + HashesOf(hash, u)
  {
    hide Holds, StoreOne, FileName, MadeOf, Apart, CollisionFree, HashesOf;
    if files != [] {
      var n := |files| - 1;
      var front, file := files[..n], files[n];
      assert files == front + [file];
      var kept := Keep(catalog, Readable(disk, front));
      ReadableAppend(disk, front, file);
      KeepAppend(catalog, Readable(disk, front), Readable(disk, [file]));
      KeepGrows(kept, Readable(disk, [file]));
      FewerAreApart(kept, Keep(catalog, Readable(disk, files)), u);
      EachOnlyAdds(st, hash, u, catalog, disk, front, takes);
      StoreEachHolds(st, hash, u, catalog, disk, front, takes);
      hide Keep, Readable;
      OneOnlyAdds(AfterFiles(st, hash, disk, front, takes), hash, u, NamesOf(catalog), kept, disk, file, takes(n));
    }
  }

  /** A run sets nothing but the strings of its catalogue and the index. */
  lemma {:induction false} RunOnlyAdds(st: Store, hash: Bytes -> Key, u: set<Bytes>, run: seq<Command>,
                                       takes: nat -> nat -> Choice)
    requires CollisionFree(hash, u) && Holds(st, hash, u, [], []) && INDEX in u
    requires MadeOf(Catalog(run), u) && ((forall l, i, j :: !takes(l)(i)(j)) || Apart(Catalog(run)))
    ensures RunAll(st, hash, run, takes).Keys <= st.Keys + HashesOf(hash, u)
  {
    if run != [] {
      hide Holds, CollisionFree, MadeOf, Apart, Readable, Keep, AfterFiles, EncodeNames;
      var n := |run| - 1;
      CatalogStep(run);
      FewerAreApart(Catalog(run[..n]), Catalog(run), u);
      RunOnlyAdds(st, hash, u, run[..n], takes);
      RunHolds(st, hash, u, run[..n], takes);
      hide Catalog;
      EachOnlyAdds(RunAll(st, hash, run[..n], takes), hash, u, Catalog(run[..n]), run[n].disk, run[n].files, takes(n));
      assert hash(INDEX) in HashesOf(hash, u);
    }
  }

  // ---------- Loads ----------

  /** A name outside the run: no string of it, nor "index", nor in the store before, nor colliding with one of them. */
  ghost predicate Outside(st: Store, hash: Bytes -> Key, run: seq<Command>, name: Bytes) {
    hash(name) !in st && forall s :: s in RunStrings(run) ==> hash(s) != hash(name)
  }

  /**
   Which loads succeed after a run: of names that are listed or outside the run, exactly
   those that name listed files only.  Any other fails, wherever the foreign name stands.
   */
  lemma RunLoadsExactly(st: Store, hash: Bytes -> Key, run: seq<Command>, takes: nat -> nat -> Choice,
                        names: seq<Bytes>)
    requires Sane(st, hash, run) && INDEX !in NamesOf(Catalog(run)) && Apart(Catalog(run))
    requires forall n :: n in names ==> n in NamesOf(Catalog(run)) || Outside(st, hash, run, n)
    ensures var r := ReadFiles(RunAll(st[hash(INDEX) := []], hash, run, takes), hash, names);
      if forall n :: n in names ==> n in NamesOf(Catalog(run)) then r.Data? else r == Failed
  {
    hide Catalog, RunAll, RunStrings, ReadFiles, Holds, Apart, Sane, Outside;
    var end := RunAll(st[hash(INDEX) := []], hash, run, takes);
    forall n | n in names
      ensures n in NamesOf(Catalog(run)) ==> !Stops(end, hash, n)
      ensures n !in NamesOf(Catalog(run)) ==> Stops(end, hash, n) && hash(n) !in end
    {
      if n in NamesOf(Catalog(run)) {
        ListedDoesNotStop(st, hash, run, takes, n);
      } else {
        OutsideStops(st, hash, run, takes, n);
      }
    }
    if forall n :: n in names ==> n in NamesOf(Catalog(run)) {
      var picks := EntriesOf(Catalog(run), names);
      RunLoads(st, hash, run, takes, picks);
    } else {
      var n :| n in names && n !in NamesOf(Catalog(run));
      var i :| 0 <= i < |names| && names[i] == n;
      var first := FirstStop(end, hash, names, i);
      assert names[first] in names;
      ReadFilesExactly(end, hash, names);
    }
  }

  lemma {:induction false} EntriesOf(catalog: seq<Entry>, names: seq<Bytes>) returns (picks: seq<Entry>)
    requires forall n :: n in names ==> n in NamesOf(catalog)
    ensures NamesOf(picks) == names && forall e :: e in picks ==> e in catalog
  {
    if names == [] {
      picks := [];
    } else {
      var n := |names| - 1;
      assert names[n] in names;
      var i :| 0 <= i < |NamesOf(catalog)| && NamesOf(catalog)[i] == names[n];
      var front := EntriesOf(catalog, names[..n]);
      picks := front + [catalog[i]];
      assert NamesOf(picks) == NamesOf(front) + [names[n]];
    }
  }

  lemma ListedDoesNotStop(st: Store, hash: Bytes -> Key, run: seq<Command>, takes: nat -> nat -> Choice, n: Bytes)
    requires Sane(st, hash, run) && INDEX !in NamesOf(Catalog(run)) && Apart(Catalog(run))
    requires n in NamesOf(Catalog(run))
    ensures !Stops(RunAll(st[hash(INDEX) := []], hash, run, takes), hash, n)
  {
    hide Catalog, RunAll, RunStrings, Files.Stored, CollisionFree, FreshFor, Holds, Apart, Stops;
    var u, end := RunStrings(run), RunAll(st[hash(INDEX) := []], hash, run, takes);
    SaneIsMadeOf(st, hash, run);
    RunHolds(st[hash(INDEX) := []], hash, u, run, takes);
    var i :| 0 <= i < |NamesOf(Catalog(run))| && NamesOf(Catalog(run))[i] == n;
    var e := Catalog(run)[i];
    assert e in Catalog(run);
    HeldIsStored(end, hash, u, NamesOf(Catalog(run)), Catalog(run), e);
    StoredDoesNotStop(end, hash, n, e.content);
  }

  lemma OutsideStops(st: Store, hash: Bytes -> Key, run: seq<Command>, takes: nat -> nat -> Choice, n: Bytes)
    requires Sane(st, hash, run) && INDEX !in NamesOf(Catalog(run)) && Apart(Catalog(run))
    requires Outside(st, hash, run, n)
    ensures var end := RunAll(st[hash(INDEX) := []], hash, run, takes); hash(n) !in end && Stops(end, hash, n)
  {
    hide Catalog, RunAll, CollisionFree, FreshFor, Holds, Apart, HasBadRecord, MadeOf, Strings;
    SaneIsMadeOf(st, hash, run);
    RunOnlyAdds(st[hash(INDEX) := []], hash, RunStrings(run), run, takes);
  }
}
