/**
 Files and the index they share a key space with (src/client/file.cpp:10-31, 98-119):
 what a file named "index", or one with a chunk that spells it, does to the listing,
 and exactly when a whole run of store commands comes out right.
 */
module Indexes {
  import opened Keys
  import opened Codec
  import opened Files
  import opened Labels
  import opened Commands
  import opened Catalogs

  // ---------- One command ----------

  function KeyTexts(keys: seq<Key>): (texts: seq<Bytes>)
    ensures |texts| == |keys|
    ensures forall i :: 0 <= i < |texts| ==> texts[i] == KeyString(keys[i])
  {
    seq(|keys|, i requires 0 <= i < |keys| => KeyString(keys[i]))
  }

  lemma {:induction false} MetadataAsIndex(keys: seq<Key>)
    ensures Encode(keys) == EncodeNames(KeyTexts(keys))
    ensures NulFree(KeyTexts(keys))
  {
    hide KeyString;
    forall n | n in KeyTexts(keys)
      ensures NUL !in n
    {
      var i :| 0 <= i < |keys| && KeyTexts(keys)[i] == n;
      KeyStringRoundTrip(keys[i]);
    }
    if keys != [] {
      MetadataAsIndex(keys[1..]);
      assert KeyTexts(keys)[1..] == KeyTexts(keys[1..]);
    }
  }

  /** The listing after one new file, by whether a chunk that spells "index" took effect. */
  lemma ListingAfter(st: Store, hash: Bytes -> Key, listed: seq<Bytes>, disk: Disk, file: Bytes, takes: nat -> Choice)
    requires NulFree(listed) && hash(INDEX) in st && st[hash(INDEX)] == EncodeNames(listed)
    requires file in disk && FileName(file) !in listed && NUL !in FileName(file)
    requires CollisionFree(hash, SetOf(Chunks(disk[file])) + {FileName(file), INDEX})
    ensures
      var name, chunks := FileName(file), Chunks(disk[file]);
      IndexRecords(StoreFiles(st, hash, disk, [file], takes), hash) == Some(
        if name == INDEX then KeyTexts(HashAll(hash, chunks)) + [INDEX]
        else if INDEX in chunks && takes(0)(|chunks| - 1) then [INDEX + name]
        else listed + [name])
  {
    hide Chunks, FileName, EncodeNames, Records, HashAll, Encode, WriteFile, CollisionFree, NulFree, StoreEach;
    var name, chunks := FileName(file), Chunks(disk[file]);
    IndexRecordsAre(st, hash, listed);
    OneFileCommand(st, hash, disk, file, takes, listed);
    var after := WriteFile(st, hash, disk[file], name, takes(0));
    IndexAfterWrite(st, hash, disk[file], name, takes(0));
    assert [] + [name] == [name];
    OneName(name);
    if name == INDEX {
      MetadataAsIndex(HashAll(hash, chunks));
      IndexAppended(KeyTexts(HashAll(hash, chunks)), name);
      IndexRecordsAre(StoreFiles(st, hash, disk, [file], takes), hash, KeyTexts(HashAll(hash, chunks)) + [name]);
    } else if INDEX in chunks && takes(0)(|chunks| - 1) {
      assert NUL !in INDEX + name;
      OneName(INDEX + name);
      assert INDEX + (name + [NUL]) == (INDEX + name) + [NUL];
      IndexRecordsAre(StoreFiles(st, hash, disk, [file], takes), hash, [INDEX + name]);
    } else {
      IndexAppended(listed, name);
      IndexRecordsAre(StoreFiles(st, hash, disk, [file], takes), hash, listed + [name]);
    }
  }

  lemma OneName(name: Bytes)
    ensures EncodeNames([name]) == name + [NUL]
    ensures NUL !in name ==> NulFree([name])
  {
    assert EncodeNames([name][1..]) == [];
    assert name + [NUL] + [] == name + [NUL];
  }

  lemma IndexAppended(listed: seq<Bytes>, name: Bytes)
    requires NulFree(listed) && NUL !in name
    ensures NulFree(listed + [name])
    ensures EncodeNames(listed + [name]) == EncodeNames(listed) + EncodeNames([name])
  {
    EncodeNamesAppend(listed, [name]);
  }

  lemma OneFileCommand(st: Store, hash: Bytes -> Key, disk: Disk, file: Bytes, takes: nat -> Choice, listed: seq<Bytes>)
    requires file in disk && IndexRecords(st, hash) == Some(listed) && FileName(file) !in listed
    ensures AfterFiles(st, hash, disk, [file], takes) ==
      Progress(WriteFile(st, hash, disk[file], FileName(file), takes(0)), [FileName(file)], [])
  {
    hide WriteFile, FileName, IndexRecords;
    StoreNone(Progress(st, [], []), hash, disk, takes);
    assert [file][..0] == [] && [file][|[file]| - 1] == file;
    assert [] + [FileName(file)] == [FileName(file)];
  }

  /** Only the last chunk of a file is shorter than a full one, so only that can spell "index". */
  lemma FrontChunksAreFull(content: Bytes, i: nat)
    requires i < |Chunks(content)| - 1
    ensures |Chunks(content)[i]| == MAX_CHUNK_SIZE
  {
    hide Chunks;
    ChunksConcat(content);
  }

  /** What the write of a file leaves under the key of the index. */
  lemma IndexAfterWrite(st: Store, hash: Bytes -> Key, content: Bytes, name: Bytes, takes: Choice)
    requires hash(INDEX) in st && CollisionFree(hash, SetOf(Chunks(content)) + {name, INDEX})
    ensures
      var s, chunks := WriteFile(st, hash, content, name, takes), Chunks(content);
      && hash(INDEX) in s
      && s[hash(INDEX)] ==
        if name == INDEX then Metadata(hash, content)
        else if INDEX in chunks && takes(|chunks| - 1) then INDEX
        else st[hash(INDEX)]
  {
    hide Chunks, Encode, HashAll, SetAll, ChunkOps, WriteFile, CollisionFree;
    var chunks := Chunks(content);
    var u := SetOf(chunks) + {name, INDEX};
    assert name in u && INDEX in u && forall c :: c in chunks ==> c in u;
    WriteFileIs(st, hash, content, name, takes);
    ChunksConcat(content);
    forall i: nat | i < |chunks| - 1 ensures chunks[i] != INDEX {
      FrontChunksAreFull(content, i);
    }
    IndexAfterChunks(st, hash, u, chunks, takes);
    if name != INDEX {
      Injective(hash, u, name, INDEX);
    }
  }

  lemma IndexAfterChunks(st: Store, hash: Bytes -> Key, u: set<Bytes>, chunks: seq<Bytes>, takes: Choice)
    requires CollisionFree(hash, u) && INDEX in u && chunks != [] && forall c :: c in chunks ==> c in u
    requires hash(INDEX) in st && forall i :: 0 <= i < |chunks| - 1 ==> chunks[i] != INDEX
    ensures var s := SetAll(st, ChunkOps(hash, chunks), takes);
      && hash(INDEX) in s
      && s[hash(INDEX)] == if INDEX in chunks && takes(|chunks| - 1) then INDEX else st[hash(INDEX)]
  {
    var n := |chunks| - 1;
    assert chunks == chunks[..n] + [chunks[n]];
    assert ChunkOps(hash, chunks)[..n] == ChunkOps(hash, chunks[..n]);
    IndexPasses(st, hash, u, chunks[..n], takes);
    if chunks[n] != INDEX {
      Injective(hash, u, chunks[n], INDEX);
    }
  }

  /** Chunks that do not spell "index" leave the index alone. */
  lemma {:induction false} IndexPasses(st: Store, hash: Bytes -> Key, u: set<Bytes>, chunks: seq<Bytes>, takes: Choice)
    requires CollisionFree(hash, u) && INDEX in u && (forall c :: c in chunks ==> c in u) && INDEX !in chunks
    requires hash(INDEX) in st
    ensures var s := SetAll(st, ChunkOps(hash, chunks), takes); hash(INDEX) in s && s[hash(INDEX)] == st[hash(INDEX)]
  {
    if chunks != [] {
      var n := |chunks| - 1;
      assert chunks == chunks[..n] + [chunks[n]];
      assert ChunkOps(hash, chunks)[..n] == ChunkOps(hash, chunks[..n]);
      IndexPasses(st, hash, u, chunks[..n], takes);
      assert chunks[n] in chunks;
    }
  }

  /**
   What storing one new readable file does to the listing, exactly: whichever unforced
   sets take effect it is the old listing and the new name, if and only if no chunk of
   the file spells "index"; or, for a file named "index", whose metadata replaces the
   index, only in case the old listing was the texts of its chunk keys.
   */
  lemma ListingGrowsExactly(st: Store, hash: Bytes -> Key, listed: seq<Bytes>, disk: Disk, file: Bytes)
    requires NulFree(listed) && hash(INDEX) in st && st[hash(INDEX)] == EncodeNames(listed)
    requires file in disk && FileName(file) !in listed && NUL !in FileName(file)
    requires CollisionFree(hash, SetOf(Chunks(disk[file])) + {FileName(file), INDEX})
    ensures
      (forall takes: nat -> Choice ::
        IndexRecords(StoreFiles(st, hash, disk, [file], takes), hash) == Some(listed + [FileName(file)])) <==>
      if FileName(file) == INDEX then listed == KeyTexts(HashAll(hash, Chunks(disk[file])))
      else INDEX !in Chunks(disk[file])
  {
    hide Chunks, FileName, EncodeNames, IndexRecords, StoreFiles, HashAll, KeyTexts, CollisionFree, NulFree;
    var name, chunks := FileName(file), Chunks(disk[file]);
    var texts := KeyTexts(HashAll(hash, chunks));
    forall takes: nat -> Choice
      ensures IndexRecords(StoreFiles(st, hash, disk, [file], takes), hash) == Some(
        if name == INDEX then texts + [INDEX]
        else if INDEX in chunks && takes(0)(|chunks| - 1) then [INDEX + name]
        else listed + [name])
    {
      ListingAfter(st, hash, listed, disk, file, takes);
    }
    var all: nat -> Choice := _ => _ => true;
    ChunksConcat(disk[file]);
    assert all(0)(|chunks| - 1);
    SameFront(texts, listed, name);
    NotOneLonger(listed, name);
    assert IndexRecords(StoreFiles(st, hash, disk, [file], all), hash) == Some(
        if name == INDEX then texts + [INDEX] else if INDEX in chunks then [INDEX + name] else listed + [name]);
  }

  lemma SameFront(a: seq<Bytes>, b: seq<Bytes>, x: Bytes)
    ensures a + [x] == b + [x] <==> a == b
  {
    if a + [x] == b + [x] {
      assert a == (a + [x])[..|a|] && b == (b + [x])[..|b|];
    }
  }

  lemma NotOneLonger(listed: seq<Bytes>, name: Bytes)
    ensures [INDEX + name] != listed + [name]
  {
    assert (listed + [name])[|listed|] == name;
    assert |INDEX + name| == |name| + 5;
  }

  // ---------- Runs ----------

  function TextsOf(hash: Bytes -> Key, content: Bytes): seq<Bytes> {
    KeyTexts(HashAll(hash, Chunks(content)))
  }

  ghost predicate IndexIs(st: Store, hash: Bytes -> Key, listed: seq<Bytes>) {
    NulFree(listed) && hash(INDEX) in st && st[hash(INDEX)] == EncodeNames(listed)
  }

  /**
   While no unforced set replaces anything: the index holds these names; one named
   "index" is among them, or among those just added, exactly if the catalogue has it, and
   then the index starts with the texts of its chunk keys.
   */
  ghost predicate Tracks(st: Store, hash: Bytes -> Key, listed: seq<Bytes>, added: seq<Bytes>, catalog: seq<Entry>) {
    && IndexIs(st, hash, listed) && NulFree(added)
    && (INDEX in NamesOf(catalog) <==> INDEX in listed || INDEX in added)
    && forall e :: e in catalog && e.name == INDEX ==> TextsOf(hash, e.content) <= listed
  }

  /** Names as the system allows them, none of which meets "index" at its key. */
  ghost predicate PlainNames(hash: Bytes -> Key, catalog: seq<Entry>) {
    forall n :: n in NamesOf(catalog) ==> NUL !in n && (hash(n) == hash(INDEX) ==> n == INDEX)
  }

  lemma {:induction false} QuietSets(st: Store, ops: seq<SetOp>, takes: Choice, k: Key)
    requires k in st && (forall j :: !takes(j)) && forall op :: op in ops ==> !op.force
    ensures k in SetAll(st, ops, takes) && SetAll(st, ops, takes)[k] == st[k]
  {
    if ops != [] {
      assert forall op :: op in ops[..|ops| - 1] ==> op in ops;
      QuietSets(st, ops[..|ops| - 1], takes, k);
    }
  }

  /** Only the forced set of its metadata lets such a write change the index. */
  lemma QuietWrite(st: Store, hash: Bytes -> Key, content: Bytes, name: Bytes, takes: Choice)
    requires hash(INDEX) in st && forall j :: !takes(j)
    ensures var s := WriteFile(st, hash, content, name, takes);
      && hash(INDEX) in s
      && s[hash(INDEX)] == if hash(name) == hash(INDEX) then Metadata(hash, content) else st[hash(INDEX)]
  {
    hide Chunks, Encode, HashAll, SetAll, WriteFile;
    QuietSets(st, ChunkOps(hash, Chunks(content)), takes, hash(INDEX));
    WriteFileIs(st, hash, content, name, takes);
  }

  /** A file of another name leaves the index to be what it was. */
  lemma OtherTracks(st: Store, after: Store, hash: Bytes -> Key, listed: seq<Bytes>, added: seq<Bytes>,
                    catalog: seq<Entry>, e: Entry)
    requires Tracks(st, hash, listed, added, catalog) && e.name != INDEX
    requires hash(INDEX) in after && after[hash(INDEX)] == st[hash(INDEX)]
    ensures Tracks(after, hash, listed, added, catalog + [e])
    ensures NUL !in e.name ==>
      && Tracks(after, hash, listed, added + [e.name], catalog)
      && Tracks(after, hash, listed, added + [e.name], catalog + [e])
  {
    hide EncodeNames, TextsOf;
    assert NamesOf(catalog + [e]) == NamesOf(catalog) + [e.name];
  }

  /** The first file named "index" makes its metadata the index. */
  lemma IndexFileTracks(st: Store, hash: Bytes -> Key, added: seq<Bytes>, catalog: seq<Entry>, content: Bytes)
    requires INDEX !in NamesOf(catalog) && NulFree(added)
    requires hash(INDEX) in st && st[hash(INDEX)] == Metadata(hash, content)
    ensures Tracks(st, hash, TextsOf(hash, content), added + [INDEX], catalog + [Entry(INDEX, content)])
  {
    hide Chunks, HashAll, KeyTexts, Encode, EncodeNames;
    MetadataAsIndex(HashAll(hash, Chunks(content)));
    NamesAre(catalog);
    assert NamesOf(catalog + [Entry(INDEX, content)]) == NamesOf(catalog) + [INDEX];
    assert (added + [INDEX])[|added|] == INDEX;
  }

  lemma FileTracks(p: Progress, hash: Bytes -> Key, listed: seq<Bytes>, catalog: seq<Entry>, disk: Disk, file: Bytes,
                   takes: Choice)
    returns (relisted: seq<Bytes>)
    requires Tracks(p.store, hash, listed, p.added, catalog) && forall j :: !takes(j)
    requires PlainNames(hash, Keep(catalog, Readable(disk, [file])))
    ensures var q := StoreOne(p, hash, disk, file, takes);
      Tracks(q.store, hash, relisted, q.added, Keep(catalog, Readable(disk, [file])))
  {
    hide Chunks, EncodeNames, WriteFile, FileName, Keep, Readable, TextsOf, Encode, Records;
    relisted := listed;
    KeepOne(catalog, disk, file);
    IndexRecordsAre(p.store, hash, listed);
    var name := FileName(file);
    if file in disk {
      var entry := Entry(name, disk[file]);
      var q := StoreOne(p, hash, disk, file, takes);
      assert NamesOf(catalog + [entry]) == NamesOf(catalog) + [name];
      QuietWrite(p.store, hash, disk[file], name, takes);
      if name != INDEX {
        OtherTracks(p.store, q.store, hash, listed, p.added, catalog, entry);
      } else if INDEX !in NamesOf(catalog) {
        relisted := TextsOf(hash, disk[file]);
        IndexFileTracks(q.store, hash, p.added, catalog, disk[file]);
      }
    }
  }

  lemma {:induction false} EachTracks(p: Progress, hash: Bytes -> Key, listed: seq<Bytes>, catalog: seq<Entry>,
                                      disk: Disk, files: seq<Bytes>, takes: nat -> Choice)
    returns (relisted: seq<Bytes>)
    requires Tracks(p.store, hash, listed, p.added, catalog) && forall i, j :: !takes(i)(j)
    requires PlainNames(hash, Keep(catalog, Readable(disk, files)))
    ensures var q := StoreEach(p, hash, disk, files, takes);
      Tracks(q.store, hash, relisted, q.added, Keep(catalog, Readable(disk, files)))
  {
    if files == [] {
      relisted := listed;
    } else {
      hide Tracks, StoreOne;
      var n := |files| - 1;
      var front, file := files[..n], files[n];
      assert files == front + [file];
      var kept := Keep(catalog, Readable(disk, front));
      ReadableAppend(disk, front, file);
      KeepAppend(catalog, Readable(disk, front), Readable(disk, [file]));
      KeepGrows(kept, Readable(disk, [file]));
      hide Keep, Readable;
      FewerArePlain(hash, kept, Keep(catalog, Readable(disk, files)));
      relisted := EachTracks(p, hash, listed, catalog, disk, front, takes);
      relisted := FileTracks(StoreEach(p, hash, disk, front, takes), hash, relisted, kept, disk, file, takes(n));
    }
  }

  lemma FewerArePlain(hash: Bytes -> Key, few: seq<Entry>, more: seq<Entry>)
    requires few <= more && PlainNames(hash, more)
    ensures PlainNames(hash, few)
  {
    assert NamesOf(few) <= NamesOf(more);
  }

  lemma CommandTracks(st: Store, hash: Bytes -> Key, listed: seq<Bytes>, catalog: seq<Entry>, c: Command,
                      takes: nat -> Choice)
    returns (relisted: seq<Bytes>)
    requires Tracks(st, hash, listed, [], catalog) && forall i, j :: !takes(i)(j)
    requires PlainNames(hash, Keep(catalog, Readable(c.disk, c.files)))
    ensures Tracks(StoreFiles(st, hash, c.disk, c.files, takes), hash, relisted, [],
                   Keep(catalog, Readable(c.disk, c.files)))
  {
    hide StoreEach, Keep, Readable, EncodeNames, TextsOf;
    var p := AfterFiles(st, hash, c.disk, c.files, takes);
    relisted := EachTracks(Progress(st, [], []), hash, listed, catalog, c.disk, c.files, takes);
    EncodeNamesAppend(relisted, p.added);
    relisted := relisted + p.added;
  }

  lemma {:induction false} RunTracks(st: Store, hash: Bytes -> Key, run: seq<Command>, takes: nat -> nat -> Choice)
    returns (listed: seq<Bytes>)
    requires PlainNames(hash, Catalog(run)) && forall l, i, j :: !takes(l)(i)(j)
    ensures Tracks(RunAll(st[hash(INDEX) := []], hash, run, takes), hash, listed, [], Catalog(run))
  {
    if run == [] {
      listed := [];
      NothingKept();
    } else {
      hide Tracks, Catalog, StoreFiles, Keep, Readable;
      var n := |run| - 1;
      CatalogStep(run);
      FewerArePlain(hash, Catalog(run[..n]), Catalog(run));
      listed := RunTracks(st, hash, run[..n], takes);
      listed := CommandTracks(RunAll(st[hash(INDEX) := []], hash, run[..n], takes), hash, listed, Catalog(run[..n]),
                              run[n], takes(n));
    }
  }

  /**
   The first file of the run does not have the 160-digit text of the key of the first
   chunk of a file named "index" as its name.
   */
  ghost predicate FirstNameIsNoText(hash: Bytes -> Key, catalog: seq<Entry>) {
    forall e :: e in catalog && e.name == INDEX ==> catalog[0].name != KeyString(hash(Chunks(e.content)[0]))
  }

  /** A file named "index" puts the texts of its chunk keys in front of the listing for good. */
  lemma IndexFileSpoilsTheListing(st: Store, hash: Bytes -> Key, run: seq<Command>, takes: nat -> nat -> Choice)
    requires PlainNames(hash, Catalog(run)) && forall l, i, j :: !takes(l)(i)(j)
    requires INDEX in NamesOf(Catalog(run)) && FirstNameIsNoText(hash, Catalog(run))
    ensures !RunIsRight(st, hash, run, takes)
  {
    hide Chunks, RunAll, EncodeNames, KeyTexts, HashAll, Records, AllReadBack, Catalog;
    var catalog, end := Catalog(run), RunAll(st[hash(INDEX) := []], hash, run, takes);
    var listed := RunTracks(st, hash, run, takes);
    IndexRecordsAre(end, hash, listed);
    var i :| 0 <= i < |NamesOf(catalog)| && NamesOf(catalog)[i] == INDEX;
    var e := catalog[i];
    FirstText(hash, e.content);
    assert listed[0] == KeyString(hash(Chunks(e.content)[0]));
    assert NonEmpty(listed)[0] == listed[0];
    assert NamesOf(catalog)[0] == catalog[0].name;
  }

  lemma FirstText(hash: Bytes -> Key, content: Bytes)
    ensures Chunks(content) != [] && TextsOf(hash, content) != []
    ensures TextsOf(hash, content)[0] == KeyString(hash(Chunks(content)[0]))
  {
    ChunksConcat(content);
  }

  lemma SaneIsPlain(st: Store, hash: Bytes -> Key, run: seq<Command>)
    requires Sane(st, hash, run)
    ensures PlainNames(hash, Catalog(run))
  {
    hide Catalog, Chunks;
    NamesAre(Catalog(run));
  }

  /**
   The run invariant of the client, exactly.  From an index that was just initialised,
   over any store commands, the listing is the names of the first successful stores, in
   their order, and each of them reads as first stored, whichever unforced sets take
   effect, if and only if no such name is empty or "index", and no such name, nor
   "index", is a chunk of one of these files.
   */
  lemma RunIsRightExactly(st: Store, hash: Bytes -> Key, run: seq<Command>)
    requires Sane(st, hash, run) && FirstNameIsNoText(hash, Catalog(run))
    ensures (forall takes: nat -> nat -> Choice :: RunIsRight(st, hash, run, takes)) <==> Orderly(Catalog(run))
  {
    hide Sane, RunIsRight, Apart, Catalog, FirstNameIsNoText;
    var none: nat -> nat -> Choice := _ => _ => _ => false;
    if INDEX in NamesOf(Catalog(run)) {
      SaneIsPlain(st, hash, run);
      IndexFileSpoilsTheListing(st, hash, run, none);
    } else {
      RunUnder(st, hash, run, none);
      if Apart(Catalog(run)) {
        forall takes: nat -> nat -> Choice
          ensures RunIsRight(st, hash, run, takes) <==> [] !in NamesOf(Catalog(run))
        {
          RunUnder(st, hash, run, takes);
        }
      }
    }
  }
}
