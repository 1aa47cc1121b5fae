/**
 Whole runs of store commands (src/client/cmd.cpp:120-146): exactly when the index
 lists every name once, in the order of the first store that succeeded, and each
 listed name loads the bytes of that store, whichever unforced sets take effect.
 */
module Catalogs {
  import opened Keys
  import opened Codec
  import opened Files
  import opened Labels
  import opened Commands

  /** The files of a command that open, in order: what it tries to store. */
  function Readable(disk: Disk, files: seq<Bytes>): seq<Entry> {
    if files == [] then []
    else
      var file := files[|files| - 1];
      Readable(disk, files[..|files| - 1]) + if file in disk then [Entry(FileName(file), disk[file])] else []
  }

  /** The catalogue after these attempts: the first attempt at a name stays. */
  function Keep(catalog: seq<Entry>, attempts: seq<Entry>): seq<Entry> {
    if attempts == [] then catalog
    else
      var before, last := Keep(catalog, attempts[..|attempts| - 1]), attempts[|attempts| - 1];
      if last.name in NamesOf(before) then before else before + [last]
  }

  /** This attempt is the first at its name. */
  ghost predicate FirstAt(attempts: seq<Entry>, i: nat) {
    i < |attempts| && forall j :: 0 <= j < i ==> attempts[j].name != attempts[i].name
  }

  /** The catalogue holds exactly the first attempts, once each, in their order. */
  lemma {:induction false} KeepMeans(attempts: seq<Entry>)
    ensures DistinctNames(Keep([], attempts))
    ensures forall e :: e in Keep([], attempts) <==> exists i: nat :: FirstAt(attempts, i) && attempts[i] == e
    ensures forall n :: n in NamesOf(Keep([], attempts)) <==> n in NamesOf(attempts)
    ensures forall k :: 0 <= k <= |attempts| ==> Keep([], attempts[..k]) <= Keep([], attempts)
  {
    if attempts != [] {
      var n := |attempts| - 1;
      var front, last := attempts[..n], attempts[n];
      KeepMeans(front);
      assert attempts == front + [last];
      assert forall i :: 0 <= i < n ==> (FirstAt(front, i) <==> FirstAt(attempts, i));
      assert FirstAt(attempts, n) <==> last.name !in NamesOf(front) by {
        assert forall j :: 0 <= j < n ==> NamesOf(front)[j] == attempts[j].name;
      }
      forall e
        ensures e in Keep([], attempts) <==> exists i: nat :: FirstAt(attempts, i) && attempts[i] == e
      {
        if e in Keep([], front) {
          var i: nat :| FirstAt(front, i) && front[i] == e;
          assert FirstAt(attempts, i) && attempts[i] == e;
        }
      }
      forall k | 0 <= k <= |attempts|
        ensures Keep([], attempts[..k]) <= Keep([], attempts)
      {
        if k <= n {
          assert attempts[..k] == front[..k];
        } else {
          assert attempts[..k] == attempts;
        }
      }
      assert NamesOf(attempts) == NamesOf(front) + [last.name];
      assert Keep([], attempts) != Keep([], front) ==>
        NamesOf(Keep([], attempts)) == NamesOf(Keep([], front)) + [last.name];
    }
  }

  lemma {:induction false} KeepAppend(catalog: seq<Entry>, a: seq<Entry>, b: seq<Entry>)
    ensures Keep(catalog, a + b) == Keep(Keep(catalog, a), b)
  {
    if b == [] {
      assert a + b == a;
    } else {
      assert (a + b)[..|a + b| - 1] == a + b[..|b| - 1];
      KeepAppend(catalog, a, b[..|b| - 1]);
    }
  }

  lemma {:induction false} KeepGrows(catalog: seq<Entry>, attempts: seq<Entry>)
    ensures catalog <= Keep(catalog, attempts)
    decreases |attempts|
  {
    if attempts != [] {
      KeepGrows(catalog, attempts[..|attempts| - 1]);
    }
  }

  // ---------- The invariant ----------

  /** These files are made of the byte strings `u`, and none is named "index" or has a NUL in its name. */
  ghost predicate MadeOf(entries: seq<Entry>, u: set<Bytes>) {
    forall e :: e in entries ==> e.name in u && Within(e.content, u) && e.name != INDEX && NUL !in e.name
  }

  /** No name of these files, nor "index", is a chunk of one of them. */
  ghost predicate Apart(entries: seq<Entry>) {
    NoNameIsChunk(entries) && forall f :: f in entries ==> INDEX !in Chunks(f.content)
  }

  /** What is labelled when these files are stored and these names are listed. */
  function CatalogLabels(hash: Bytes -> Key, listed: seq<Bytes>, catalog: seq<Entry>): map<Bytes, Bytes> {
    LabelsOf(hash, catalog)[INDEX := EncodeNames(listed)]
  }

  /** The store is settled with these files stored and these names listed. */
  ghost predicate Holds(st: Store, hash: Bytes -> Key, u: set<Bytes>, listed: seq<Bytes>, catalog: seq<Entry>) {
    && DistinctNames(catalog) && MadeOf(catalog, u)
    && Settled(st, hash, u, CatalogLabels(hash, listed, catalog))
    && forall e :: e in catalog ==> Present(st, hash, e.content)
  }

  lemma IndexRecordsAre(st: Store, hash: Bytes -> Key, listed: seq<Bytes>)
    requires NulFree(listed) && hash(INDEX) in st && st[hash(INDEX)] == EncodeNames(listed)
    ensures IndexRecords(st, hash) == Some(listed)
  {
    RecordsOfNames(listed, []);
    assert EncodeNames(listed) + [] == EncodeNames(listed);
    assert listed + Records([], []) == listed;
  }

  /** A name is found in the index exactly when it is listed. */
  lemma HeldIsListed(st: Store, hash: Bytes -> Key, u: set<Bytes>, listed: seq<Bytes>, catalog: seq<Entry>)
    requires NulFree(listed) && Holds(st, hash, u, listed, catalog)
    ensures IndexRecords(st, hash) == Some(listed)
  {
    hide EncodeNames, LabelsOf, Present, MadeOf, DistinctNames;
    assert INDEX in CatalogLabels(hash, listed, catalog);
    IndexRecordsAre(st, hash, listed);
  }

  lemma ListedAreNulFree(listed: seq<Bytes>, added: seq<Bytes>, catalog: seq<Entry>, u: set<Bytes>)
    requires MadeOf(catalog, u) && NamesOf(catalog) == listed + added
    ensures NulFree(listed) && NulFree(NamesOf(catalog)) && INDEX !in NamesOf(catalog)
  {
    NamesAre(catalog);
    assert forall n :: n in listed ==> n in listed + added;
  }

  /** So whether a name was stored can be seen in the catalogue. */
  lemma ListedInCatalog(p: Progress, hash: Bytes -> Key, u: set<Bytes>, listed: seq<Bytes>, catalog: seq<Entry>)
    requires Holds(p.store, hash, u, listed, catalog) && NamesOf(catalog) == listed + p.added
    ensures forall n :: n in NamesOf(catalog) <==> n in p.added || Exists(p.store, hash, n)
  {
    hide Settled, Present, CatalogLabels, IndexRecords;
    ListedAreNulFree(listed, p.added, catalog, u);
    HeldIsListed(p.store, hash, u, listed, catalog);
  }

  /** One more file that is new: its write keeps the store settled. */
  lemma WriteHolds(st: Store, hash: Bytes -> Key, u: set<Bytes>, listed: seq<Bytes>, catalog: seq<Entry>, entry: Entry,
                   takes: Choice)
    requires CollisionFree(hash, u) && Holds(st, hash, u, listed, catalog) && MadeOf(catalog + [entry], u)
    requires entry.name !in NamesOf(catalog) && ((forall j :: !takes(j)) || Apart(catalog + [entry]))
    ensures Holds(WriteFile(st, hash, entry.content, entry.name, takes), hash, u, listed, catalog + [entry])
  {
    hide Chunks, EncodeNames, WriteFile, CollisionFree, Settled, Metadata, Present, LabelsOf;
    var labels, more := CatalogLabels(hash, listed, catalog), catalog + [entry];
    var after := WriteFile(st, hash, entry.content, entry.name, takes);
    assert entry in more && forall e :: e in catalog ==> e in more;
    LabelsAre(hash, catalog);
    NamesAre(catalog);
    assert Harmless(takes, entry.content, labels);
    WriteSettles(st, hash, u, labels, entry, takes);
    MoreLabels(hash, listed, catalog, entry);
    forall e | e in more ensures Present(after, hash, e.content) {
      if e in catalog {
        PresentMore(st, after, hash, e.content);
      }
    }
    forall i | 0 <= i < |catalog| ensures catalog[i].name != entry.name {
      assert NamesOf(catalog)[i] == catalog[i].name;
    }
  }

  lemma MoreLabels(hash: Bytes -> Key, listed: seq<Bytes>, catalog: seq<Entry>, entry: Entry)
    requires entry.name != INDEX
    ensures CatalogLabels(hash, listed, catalog + [entry]) ==
      CatalogLabels(hash, listed, catalog)[entry.name := Metadata(hash, entry.content)]
  {
    hide Metadata, EncodeNames;
    assert (catalog + [entry])[..|catalog|] == catalog;
  }

  /** One attempt more: the entry is kept if the file opens and its name is new. */
  lemma KeepOne(catalog: seq<Entry>, disk: Disk, file: Bytes)
    ensures Keep(catalog, Readable(disk, [file])) ==
      if file in disk && FileName(file) !in NamesOf(catalog) then catalog + [Entry(FileName(file), disk[file])]
      else catalog
  {
    hide FileName;
    assert [file][..0] == [] && [file][|[file]| - 1] == file;
    if file in disk {
      var entry := Entry(FileName(file), disk[file]);
      assert Readable(disk, [file]) == [entry];
      assert [entry][..0] == [] && [entry][|[entry]| - 1] == entry;
    } else {
      assert Readable(disk, [file]) == [];
    }
  }

  /** One file of a command: the catalogue takes it exactly when its name is new and it opens. */
  lemma StoreOneHolds(p: Progress, hash: Bytes -> Key, u: set<Bytes>, listed: seq<Bytes>, catalog: seq<Entry>,
                      disk: Disk, file: Bytes, takes: Choice)
    requires CollisionFree(hash, u) && Holds(p.store, hash, u, listed, catalog) && NamesOf(catalog) == listed + p.added
    requires var after := Keep(catalog, Readable(disk, [file]));
      MadeOf(after, u) && ((forall j :: !takes(j)) || Apart(after))
    ensures
      var q, after := StoreOne(p, hash, disk, file, takes), Keep(catalog, Readable(disk, [file]));
      Holds(q.store, hash, u, listed, after) && NamesOf(after) == listed + q.added
  {
    hide Chunks, EncodeNames, WriteFile, FileName, IndexRecords, Keep, Readable, Settled, CollisionFree, Apart, MadeOf;
    KeepOne(catalog, disk, file);
    ListedAreNulFree(listed, p.added, catalog, u);
    HeldIsListed(p.store, hash, u, listed, catalog);
    var name := FileName(file);
    if file in disk && name !in NamesOf(catalog) {
      var entry := Entry(name, disk[file]);
      hide Holds;
      WriteHolds(p.store, hash, u, listed, catalog, entry, takes);
      assert NamesOf(catalog + [entry]) == NamesOf(catalog) + [name];
    }
  }

  lemma ReadableAppend(disk: Disk, files: seq<Bytes>, file: Bytes)
    ensures Readable(disk, files + [file]) == Readable(disk, files) + Readable(disk, [file])
  {
    assert (files + [file])[..|files + [file]| - 1] == files;
    assert [file][..|[file]| - 1] == [];
  }

  lemma FewerAreApart(few: seq<Entry>, more: seq<Entry>, u: set<Bytes>)
    requires few <= more
    ensures (MadeOf(more, u) ==> MadeOf(few, u)) && (Apart(more) ==> Apart(few))
  {
    assert forall e :: e in few ==> e in more;
  }

  lemma {:induction false} StoreEachHolds(st: Store, hash: Bytes -> Key, u: set<Bytes>, catalog: seq<Entry>,
                                          disk: Disk, files: seq<Bytes>, takes: nat -> Choice)
    requires CollisionFree(hash, u) && Holds(st, hash, u, NamesOf(catalog), catalog)
    requires var after := Keep(catalog, Readable(disk, files));
      MadeOf(after, u) && ((forall i, j :: !takes(i)(j)) || Apart(after))
    ensures
      var p, after := AfterFiles(st, hash, disk, files, takes), Keep(catalog, Readable(disk, files));
      Holds(p.store, hash, u, NamesOf(catalog), after) && NamesOf(after) == NamesOf(catalog) + p.added
  {
    hide Holds, StoreOne, FileName, MadeOf, Apart, CollisionFree, DistinctNames;
    if files == [] {
      assert NamesOf(catalog) + [] == NamesOf(catalog);
    } else {
      var n := |files| - 1;
      var front, file := files[..n], files[n];
      assert files == front + [file];
      var kept := Keep(catalog, Readable(disk, front));
      ReadableAppend(disk, front, file);
      KeepAppend(catalog, Readable(disk, front), Readable(disk, [file]));
      KeepGrows(kept, Readable(disk, [file]));
      FewerAreApart(kept, Keep(catalog, Readable(disk, files)), u);
      StoreEachHolds(st, hash, u, catalog, disk, front, takes);
      hide Keep, Readable;
      StoreOneHolds(AfterFiles(st, hash, disk, front, takes), hash, u, NamesOf(catalog), kept, disk, file, takes(n));
    }
  }

  /** A store command takes the catalogue to the catalogue with its readable new names. */
  lemma StoreCmdKeepsCatalog(st: Store, hash: Bytes -> Key, u: set<Bytes>, catalog: seq<Entry>,
                             disk: Disk, files: seq<Bytes>, takes: nat -> Choice)
    requires CollisionFree(hash, u) && Holds(st, hash, u, NamesOf(catalog), catalog)
    requires var after := Keep(catalog, Readable(disk, files));
      MadeOf(after, u) && ((forall i, j :: !takes(i)(j)) || Apart(after))
    ensures var after := Keep(catalog, Readable(disk, files));
      Holds(StoreFiles(st, hash, disk, files, takes), hash, u, NamesOf(after), after)
  {
    hide Chunks, AfterFiles, Readable, Keep, EncodeNames, FileName, Holds, Apart, MadeOf, CollisionFree;
    StoreEachHolds(st, hash, u, catalog, disk, files, takes);
    var p, after := AfterFiles(st, hash, disk, files, takes), Keep(catalog, Readable(disk, files));
    EncodeNamesAppend(NamesOf(catalog), p.added);
    IndexWriteHolds(p.store, hash, u, NamesOf(catalog), after, NamesOf(after));
  }

  /** Writing the index relists the files and leaves them as they are. */
  lemma IndexWriteHolds(st: Store, hash: Bytes -> Key, u: set<Bytes>, listed: seq<Bytes>, catalog: seq<Entry>,
                        relisted: seq<Bytes>)
    requires CollisionFree(hash, u) && Holds(st, hash, u, listed, catalog)
    ensures hash(INDEX) in st && st[hash(INDEX)] == EncodeNames(listed)
    ensures Holds(st[hash(INDEX) := EncodeNames(relisted)], hash, u, relisted, catalog)
  {
    hide Chunks, EncodeNames, LabelsOf, CollisionFree, Present, MadeOf, DistinctNames;
    var labels := CatalogLabels(hash, listed, catalog);
    assert INDEX in labels && labels[INDEX] == EncodeNames(listed);
    LabelLands(st, hash, u, labels, INDEX, EncodeNames(relisted));
    assert labels[INDEX := EncodeNames(relisted)] == CatalogLabels(hash, relisted, catalog);
    forall e | e in catalog ensures Present(st[hash(INDEX) := EncodeNames(relisted)], hash, e.content) {
      PresentMore(st, st[hash(INDEX) := EncodeNames(relisted)], hash, e.content);
    }
  }

  // ---------- Runs ----------

  /** A store command with the local files as they are when it is given. */
  datatype Command = Command(disk: Disk, files: seq<Bytes>)

  /** The store after a run; `takes` chooses by command, file and set. */
  function RunAll(st: Store, hash: Bytes -> Key, run: seq<Command>, takes: nat -> nat -> Choice): Store {
    if run == [] then st
    else
      var n := |run| - 1;
      StoreFiles(RunAll(st, hash, run[..n], takes), hash, run[n].disk, run[n].files, takes(n))
  }

  /** Everything a run tries to store, in order. */
  function Attempts(run: seq<Command>): seq<Entry> {
    if run == [] then []
    else
      var last := run[|run| - 1];
      Attempts(run[..|run| - 1]) + Readable(last.disk, last.files)
  }

  /** The first successful store of each name. */
  function Catalog(run: seq<Command>): seq<Entry> {
    Keep([], Attempts(run))
  }

  lemma CatalogStep(run: seq<Command>)
    requires run != []
    ensures var n := |run| - 1;
      && Catalog(run) == Keep(Catalog(run[..n]), Readable(run[n].disk, run[n].files))
      && Catalog(run[..n]) <= Catalog(run)
  {
    hide Readable, Keep;
    var n := |run| - 1;
    KeepAppend([], Attempts(run[..n]), Readable(run[n].disk, run[n].files));
    KeepGrows(Catalog(run[..n]), Readable(run[n].disk, run[n].files));
  }

  lemma NothingKept()
    ensures Catalog([]) == [] && NamesOf(Catalog([])) == []
  {
  }

  lemma {:induction false} RunHolds(st: Store, hash: Bytes -> Key, u: set<Bytes>, run: seq<Command>,
                                    takes: nat -> nat -> Choice)
    requires CollisionFree(hash, u) && Holds(st, hash, u, [], [])
    requires MadeOf(Catalog(run), u) && ((forall l, i, j :: !takes(l)(i)(j)) || Apart(Catalog(run)))
    ensures Holds(RunAll(st, hash, run, takes), hash, u, NamesOf(Catalog(run)), Catalog(run))
  {
    hide Holds, StoreFiles, CollisionFree, MadeOf, Apart, Readable, Keep;
    if run == [] {
      NothingKept();
    } else {
      var n := |run| - 1;
      CatalogStep(run);
      FewerAreApart(Catalog(run[..n]), Catalog(run), u);
      RunHolds(st, hash, u, run[..n], takes);
      hide Catalog;
      StoreCmdKeepsCatalog(RunAll(st, hash, run[..n], takes), hash, u, Catalog(run[..n]),
                           run[n].disk, run[n].files, takes(n));
    }
  }

  /** The index lists exactly these files, in order, and every one reads as it is in the catalogue. */
  ghost predicate ListsAndLoads(st: Store, hash: Bytes -> Key, catalog: seq<Entry>) {
    && IndexRecords(st, hash).Some?
    && NonEmpty(IndexRecords(st, hash).value) == NamesOf(catalog)
    && AllReadBack(st, hash, catalog)
  }

  /** An index that was just initialised, in a store with nothing else under the strings at hand. */
  lemma StartHolds(st: Store, hash: Bytes -> Key, u: set<Bytes>)
    requires CollisionFree(hash, u) && INDEX in u && FreshFor(st, hash, u - {INDEX})
    ensures Holds(st[hash(INDEX) := []], hash, u, [], [])
  {
    assert CatalogLabels(hash, [], []) == map[INDEX := []];
  }

  lemma {:induction false} NonEmptyExactly(names: seq<Bytes>)
    ensures |NonEmpty(names)| <= |names|
    ensures NonEmpty(names) == names <==> [] !in names
  {
    if names != [] {
      NonEmptyExactly(names[1..]);
      assert names == [names[0]] + names[1..];
      if names[0] != [] {
        assert NonEmpty(names)[1..] == NonEmpty(names[1..]);
      }
    }
  }

  lemma IndexIsMarked(listed: seq<Bytes>)
    ensures Marked(INDEX, EncodeNames(listed))
  {
    if listed != [] {
      assert EncodeNames(listed)[|listed[0]|] == NUL;
      assert NUL !in INDEX;
    }
  }

  /** In a settled store every file of the catalogue reads back if and only if the files are apart. */
  lemma ReadsBackExactly(st: Store, hash: Bytes -> Key, u: set<Bytes>, listed: seq<Bytes>, catalog: seq<Entry>)
    requires Holds(st, hash, u, listed, catalog)
    ensures AllReadBack(st, hash, catalog) <==> Apart(catalog)
  {
    hide Chunks, Metadata, Settled, Present, ReadFiles, EncodeNames, LabelsOf, Concat, Seen, Marked;
    var labels := CatalogLabels(hash, listed, catalog);
    LabelsAre(hash, catalog);
    NamesAre(catalog);
    LabelsAreMarked(hash, catalog);
    IndexIsMarked(listed);
    forall e | e in catalog
      ensures ReadFiles(st, hash, [e.name]) == Data(e.content) <==> Unlabelled(e.content, labels)
    {
      var i :| 0 <= i < |catalog| && catalog[i] == e;
      ReadSeen(st, hash, u, labels, e);
      SeenIsContentExactly(e.content, labels);
    }
  }

  /** The strings at hand: the names and chunks of the first successful stores, and "index". */
  function RunStrings(run: seq<Command>): set<Bytes> {
    Strings(Catalog(run)) + {INDEX}
  }

  /** What is assumed of a run: no collisions, nothing else under its keys, and no NUL in a name. */
  ghost predicate Sane(st: Store, hash: Bytes -> Key, run: seq<Command>) {
    && CollisionFree(hash, RunStrings(run)) && FreshFor(st, hash, Strings(Catalog(run)) - {INDEX})
    && forall n :: n in NamesOf(Catalog(run)) ==> NUL !in n
  }

  /** No file is named "index" or has no name, and no name, nor "index", is a chunk of one of these files. */
  ghost predicate Orderly(catalog: seq<Entry>) {
    [] !in NamesOf(catalog) && INDEX !in NamesOf(catalog) && Apart(catalog)
  }

  lemma SaneIsMadeOf(st: Store, hash: Bytes -> Key, run: seq<Command>)
    requires Sane(st, hash, run) && INDEX !in NamesOf(Catalog(run))
    ensures MadeOf(Catalog(run), RunStrings(run))
    ensures Holds(st[hash(INDEX) := []], hash, RunStrings(run), [], [])
  {
    hide Catalog, Chunks, CollisionFree;
    NamesAre(Catalog(run));
    assert RunStrings(run) - {INDEX} == Strings(Catalog(run)) - {INDEX};
    StartHolds(st, hash, RunStrings(run));
  }

  /** A run from an index that was just initialised ends with the listing and the files of its catalogue. */
  ghost predicate RunIsRight(st: Store, hash: Bytes -> Key, run: seq<Command>, takes: nat -> nat -> Choice) {
    ListsAndLoads(RunAll(st[hash(INDEX) := []], hash, run, takes), hash, Catalog(run))
  }

  /**
   One outcome of a run that stores no file named "index": it is right if and only if no
   name is empty and the files are apart.
   */
  lemma RunUnder(st: Store, hash: Bytes -> Key, run: seq<Command>, takes: nat -> nat -> Choice)
    requires Sane(st, hash, run) && INDEX !in NamesOf(Catalog(run))
    requires (forall l, i, j :: !takes(l)(i)(j)) || Apart(Catalog(run))
    ensures RunIsRight(st, hash, run, takes) <==> [] !in NamesOf(Catalog(run)) && Apart(Catalog(run))
  {
    hide Catalog, Apart, RunAll, RunStrings, IndexRecords, AllReadBack, CollisionFree, FreshFor;
    var u, catalog, end := RunStrings(run), Catalog(run), RunAll(st[hash(INDEX) := []], hash, run, takes);
    SaneIsMadeOf(st, hash, run);
    RunHolds(st[hash(INDEX) := []], hash, u, run, takes);
    hide Holds;
    assert NamesOf(catalog) == NamesOf(catalog) + [];
    ListedAreNulFree(NamesOf(catalog), [], catalog, u);
    HeldIsListed(end, hash, u, NamesOf(catalog), catalog);
    NonEmptyExactly(NamesOf(catalog));
    ReadsBackExactly(end, hash, u, NamesOf(catalog), catalog);
  }

  /** When the files are apart, any selection of them loads the concatenation of their contents. */
  lemma RunLoads(st: Store, hash: Bytes -> Key, run: seq<Command>, takes: nat -> nat -> Choice, picks: seq<Entry>)
    requires Sane(st, hash, run) && INDEX !in NamesOf(Catalog(run)) && Apart(Catalog(run))
    requires forall e :: e in picks ==> e in Catalog(run)
    ensures ReadFiles(RunAll(st[hash(INDEX) := []], hash, run, takes), hash, NamesOf(picks)) ==
      Data(Concat(ContentsOf(picks)))
  {
    hide Catalog, RunAll, RunStrings, Files.Stored, ReadFiles, Concat, CollisionFree, FreshFor, Holds, Apart;
    var u, end := RunStrings(run), RunAll(st[hash(INDEX) := []], hash, run, takes);
    SaneIsMadeOf(st, hash, run);
    RunHolds(st[hash(INDEX) := []], hash, u, run, takes);
    forall i | 0 <= i < |picks| ensures Files.Stored(end, hash, NamesOf(picks)[i], ContentsOf(picks)[i]) {
      assert picks[i] in picks;
      HeldIsStored(end, hash, u, NamesOf(Catalog(run)), Catalog(run), picks[i]);
    }
    ReadStored(end, hash, NamesOf(picks), ContentsOf(picks));
  }

  lemma HeldIsStored(st: Store, hash: Bytes -> Key, u: set<Bytes>, listed: seq<Bytes>, catalog: seq<Entry>, e: Entry)
    requires Holds(st, hash, u, listed, catalog) && Apart(catalog) && e in catalog
    ensures Files.Stored(st, hash, e.name, e.content)
  {
    hide Chunks, Encode, EncodeNames, LabelsOf, ParseKeys, HashAll;
    var labels := CatalogLabels(hash, listed, catalog);
    LabelsAre(hash, catalog);
    NamesAre(catalog);
    var i :| 0 <= i < |catalog| && catalog[i] == e;
    assert labels[e.name] == Metadata(hash, e.content);
    MetadataRoundTrip(HashAll(hash, Chunks(e.content)));
    assert Present(st, hash, e.content) && Within(e.content, u);
  }
}
