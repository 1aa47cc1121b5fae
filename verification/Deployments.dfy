/**
 The client over the network (src/client/cmd.cpp:120-146, src/dht/session.cpp:95-144):
 a run of store commands as the sets it makes, each through some session, and what any
 session then lists and loads.
 */
module Deployments {
  import opened Keys
  import opened Tries
  import Lookups
  import opened Convergence
  import opened Tables
  import opened Networks
  import opened Files
  import opened Labels
  import opened Commands
  import opened Catalogs
  import opened Backing
  import Retrieval

  type Copies = Retrieval.Chunks

  function EachTake(): nat -> Choice {
    _ => AllTake()
  }

  function RunTake(): nat -> nat -> Choice {
    _ => EachTake()
  }

  // ---------- The sets of a run ----------

  function OneOps(p: Progress, hash: Bytes -> Key, disk: Disk, file: Bytes): seq<SetOp> {
    if FileName(file) in p.added || Exists(p.store, hash, FileName(file)) || file !in disk then []
    else FileOps(hash, disk[file], FileName(file))
  }

  function EachOps(p: Progress, hash: Bytes -> Key, disk: Disk, files: seq<Bytes>): seq<SetOp> {
    if files == [] then []
    else
      var n := |files| - 1;
      EachOps(p, hash, disk, files[..n]) +
      OneOps(StoreEach(p, hash, disk, files[..n], EachTake()), hash, disk, files[n])
  }

  /** The sets of a store command: those of its files, then the index. */
  function CommandOps(st: Store, hash: Bytes -> Key, disk: Disk, files: seq<Bytes>): seq<SetOp> {
    var p := AfterFiles(st, hash, disk, files, EachTake());
    EachOps(Progress(st, [], []), hash, disk, files) +
    if hash(INDEX) in p.store then [SetOp(hash(INDEX), p.store[hash(INDEX)] + EncodeNames(p.added), true)] else []
  }

  function RunOps(st: Store, hash: Bytes -> Key, run: seq<Command>): seq<SetOp> {
    if run == [] then []
    else
      var n := |run| - 1;
      RunOps(st, hash, run[..n]) + CommandOps(RunAll(st, hash, run[..n], RunTake()), hash, run[n].disk, run[n].files)
  }

  /** The sets from the initialisation of the index on. */
  function AllOps(st: Store, hash: Bytes -> Key, run: seq<Command>): seq<SetOp> {
    [SetOp(hash(INDEX), [], true)] + RunOps(st[hash(INDEX) := []], hash, run)
  }

  lemma {:induction false} ReplayAppend(st: Store, a: seq<SetOp>, b: seq<SetOp>)
    ensures Replay(st, a + b) == Replay(Replay(st, a), b)
  {
    if b == [] {
      assert a + b == a;
    } else {
      assert (a + b)[..|a + b| - 1] == a + b[..|b| - 1];
      ReplayAppend(st, a, b[..|b| - 1]);
    }
  }

  lemma ReplayOne(st: Store, op: SetOp)
    ensures Replay(st, [op]) == st[op.k := op.data]
  {
    assert [op][..0] == [];
    NothingReplayed(st);
    assert AllTake()(0);
  }

  lemma OneIsReplay(p: Progress, hash: Bytes -> Key, disk: Disk, file: Bytes)
    ensures StoreOne(p, hash, disk, file, AllTake()).store == Replay(p.store, OneOps(p, hash, disk, file))
  {
    hide FileOps, FileName, Exists;
  }

  lemma {:induction false} EachIsReplay(p: Progress, hash: Bytes -> Key, disk: Disk, files: seq<Bytes>)
    ensures StoreEach(p, hash, disk, files, EachTake()).store == Replay(p.store, EachOps(p, hash, disk, files))
  {
    if files != [] {
      hide StoreOne, OneOps, Replay;
      var n := |files| - 1;
      var before := StoreEach(p, hash, disk, files[..n], EachTake());
      EachIsReplay(p, hash, disk, files[..n]);
      OneIsReplay(before, hash, disk, files[n]);
      ReplayAppend(p.store, EachOps(p, hash, disk, files[..n]), OneOps(before, hash, disk, files[n]));
    }
  }

  lemma CommandIsReplay(st: Store, hash: Bytes -> Key, disk: Disk, files: seq<Bytes>)
    ensures StoreFiles(st, hash, disk, files, EachTake()) == Replay(st, CommandOps(st, hash, disk, files))
  {
    hide StoreEach, EachOps, Replay, EncodeNames;
    var p0 := Progress(st, [], []);
    var p, ops := AfterFiles(st, hash, disk, files, EachTake()), EachOps(p0, hash, disk, files);
    EachIsReplay(p0, hash, disk, files);
    if hash(INDEX) in p.store {
      var op := SetOp(hash(INDEX), p.store[hash(INDEX)] + EncodeNames(p.added), true);
      ReplayAppend(st, ops, [op]);
      ReplayOne(Replay(st, ops), op);
    } else {
      assert ops + [] == ops;
    }
  }

  /** When every set takes effect, a run is the replay of its sets. */
  lemma {:induction false} RunIsReplay(st: Store, hash: Bytes -> Key, run: seq<Command>)
    ensures RunAll(st, hash, run, RunTake()) == Replay(st, RunOps(st, hash, run))
  {
    if run != [] {
      hide StoreFiles, CommandOps, Replay;
      var n := |run| - 1;
      var before := RunAll(st, hash, run[..n], RunTake());
      RunIsReplay(st, hash, run[..n]);
      CommandIsReplay(before, hash, run[n].disk, run[n].files);
      ReplayAppend(st, RunOps(st, hash, run[..n]), CommandOps(before, hash, run[n].disk, run[n].files));
    } else {
      NothingReplayed(st);
    }
  }

  lemma NothingReplayed(st: Store)
    ensures Replay(st, []) == st
  {
  }

  // ---------- Over the network ----------

  /** The session a read takes, what it hears from each peer, and what its own table answers. */
  datatype Reader = Reader(r: Peer, net: Lookups.Net, local: seq<Peer>)

  /**
   The copies at the start; the session of the n-th read and what it hears when the
   copies are these; and the session of the n-th set with the targets of its lookup.
   */
  datatype Deployment = Deployment(start: Copies, reader: (nat, Copies, Key) -> Reader, via: nat -> Via)

  function ViasOf(w: Deployment, n: nat): (vias: seq<Via>)
    ensures |vias| == n
  {
    seq(n, i requires 0 <= i < n => w.via(i))
  }

  function CopiesAfter(w: Deployment, log: seq<SetOp>): Copies {
    Drive(w.start, log, ViasOf(w, |log|))
  }

  /** The n-th read, after these sets. */
  function ReadAt(w: Deployment, n: nat, log: seq<SetOp>, k: Key): Option<Bytes> {
    var h := CopiesAfter(w, log);
    var rd := w.reader(n, h, k);
    if rd.r.key in h then Retrieval.Get(h[rd.r.key], rd.r, k, rd.net, rd.local) else None
  }

  /** The sets so far, the number of reads, and the names and complaints of the current command. */
  datatype Trace = Trace(log: seq<SetOp>, gets: nat, added: seq<Bytes>, errors: seq<Line>)

  /** One file of a store command: the check is a read of the network. */
  function TraceOne(w: Deployment, s: Trace, hash: Bytes -> Key, disk: Disk, file: Bytes): Trace {
    var name := FileName(file);
    if name in s.added then s.(errors := s.errors + [AlreadyExists(file)])
    else
      var got, t := ReadAt(w, s.gets, s.log, hash(INDEX)), s.(gets := s.gets + 1);
      if got.Some? && name in Records(got.value, []) then t.(errors := t.errors + [AlreadyExists(file)])
      else if file !in disk then t.(errors := t.errors + [ReadFailed(file)])
      else t.(log := t.log + FileOps(hash, disk[file], name), added := t.added + [name])
  }

  function TraceEach(w: Deployment, s: Trace, hash: Bytes -> Key, disk: Disk, files: seq<Bytes>): Trace {
    if files == [] then s
    else
      var n := |files| - 1;
      TraceOne(w, TraceEach(w, s, hash, disk, files[..n]), hash, disk, files[n])
  }

  /** A store command: its files, then the index, read from the network and set again. */
  function TraceCommand(w: Deployment, s: Trace, hash: Bytes -> Key, disk: Disk, files: seq<Bytes>): Trace {
    var t := TraceEach(w, s.(added := [], errors := []), hash, disk, files);
    var got := ReadAt(w, t.gets, t.log, hash(INDEX));
    var more := if got.Some? then [SetOp(hash(INDEX), got.value + EncodeNames(t.added), true)] else [];
    t.(log := t.log + more, gets := t.gets + 1)
  }

  /** A run that starts with the initialisation of the index. */
  function TraceRun(w: Deployment, hash: Bytes -> Key, run: seq<Command>): Trace {
    if run == [] then Trace([SetOp(hash(INDEX), [], true)], 0, [], [])
    else
      var n := |run| - 1;
      TraceCommand(w, TraceRun(w, hash, run[..n]), hash, run[n].disk, run[n].files)
  }

  /** Whatever the copies are, the session of a read is a node whose lookups find the nearest node. */
  ghost predicate GoodReaders(w: Deployment, all: set<Peer>) {
    forall n: nat, h: Copies, k: Key :: h.Keys == (set x | x in all :: x.key) ==>
      w.reader(n, h, k).r in all && GoodReaderOf(w.reader(n, h, k), h, k, all)
  }

  ghost predicate GoodReaderOf(rd: Reader, h: Copies, k: Key, all: set<Peer>) {
    Retrieval.GoodReader(h, rd.r, k, all, rd.net, rd.local)
  }

  /** Sessions that hear of good tables that point on, and of chunks where they are, are good readers. */
  lemma TablesMakeGoodReaders(q: Query, w: Deployment, all: set<Peer>)
    requires Network(all)
    requires forall n: nat, h: Copies, k: Key :: h.Keys == (set x | x in all :: x.key) ==>
      HearsFromTables(q, w.reader(n, h, k), h, k, all)
    ensures GoodReaders(w, all)
  {
    hide Network;
    forall n: nat, h: Copies, k: Key | h.Keys == (set x | x in all :: x.key)
      ensures w.reader(n, h, k).r in all && GoodReaderOf(w.reader(n, h, k), h, k, all)
    {
      TablesMakeGoodReader(q, w.reader(n, h, k), h, k, all);
    }
  }

  ghost predicate HearsFromTables(q: Query, rd: Reader, h: Copies, k: Key, all: set<Peer>) {
    && rd.r in all && TableReply(q, rd.r, k, all, rd.local)
    && AnswersFromTables(q, rd.r, rd.net, k, all) && Retrieval.ServesChunks(h, k, rd.net, all - {rd.r})
  }

  lemma TablesMakeGoodReader(q: Query, rd: Reader, h: Copies, k: Key, all: set<Peer>)
    requires Network(all) && HearsFromTables(q, rd, h, k, all)
    ensures GoodReaderOf(rd, h, k, all)
  {
    hide Network, TableReply, AnswersFromTables, Retrieval.FindsNearest, Live;
    Retrieval.CompleteNetworkFindsNearest(q, rd.r, k, all, rd.net, rd.local);
  }

  /** These sets go through good publishers, and every one that changes a key reaches all who have it. */
  ghost predicate GoodLog(w: Deployment, all: set<Peer>, st: Store, log: seq<SetOp>) {
    var vias := ViasOf(w, |log|);
    GoodVias(all, log, vias) && forall i :: 0 <= i < |log| ==> ClearsAhead(w.start, all, st, log, vias, i)
  }

  /** What a deployment is given: different nodes that together hold the store, and good readers. */
  ghost predicate Deployed(w: Deployment, all: set<Peer>, st: Store) {
    DistinctNodes(all) && Backs(w.start, all, st) && GoodReaders(w, all)
  }

  lemma PrefixIsGood(w: Deployment, all: set<Peer>, st: Store, few: seq<SetOp>, more: seq<SetOp>)
    requires few <= more && GoodLog(w, all, st, more)
    ensures GoodLog(w, all, st, few)
  {
    hide ClearsAhead, Retrieval.GoodPublisher;
    var f, m := ViasOf(w, |few|), ViasOf(w, |more|);
    forall i: nat | i < |few| ensures ClearsAhead(w.start, all, st, few, f, i) {
      assert ClearsAhead(w.start, all, st, more, m, i);
      SameAhead(w.start, all, st, few, f, more, m, i);
    }
  }

  lemma SameAhead(h: Copies, all: set<Peer>, st: Store, few: seq<SetOp>, f: seq<Via>, more: seq<SetOp>, m: seq<Via>,
                  i: nat)
    requires few <= more && f <= m && |f| == |few| && |m| == |more| && i < |few|
    ensures ClearsAhead(h, all, st, few, f, i) <==> ClearsAhead(h, all, st, more, m, i)
  {
    hide Reached, Replay;
    assert few[..i] == more[..i] && f[..i] == m[..i];
  }

  /** After a good log the network is the store its sets make, and that is what every read sees. */
  lemma LogIsBacked(w: Deployment, all: set<Peer>, st: Store, log: seq<SetOp>)
    requires Deployed(w, all, st) && GoodLog(w, all, st, log)
    ensures Backs(CopiesAfter(w, log), all, Replay(st, log))
    ensures forall n: nat, k :: ReadAt(w, n, log, k) == if k in Replay(st, log) then Some(Replay(st, log)[k]) else None
  {
    hide DistinctNodes, Backs, ClearsAhead, Drive, Replay, Retrieval.GoodPublisher, Retrieval.Get, GoodReaderOf;
    var vias, h := ViasOf(w, |log|), CopiesAfter(w, log);
    RunIsBackedExactly(w.start, all, st, log, vias);
    EndIsBacked(w.start, all, st, log, vias);
    forall n: nat, k ensures ReadAt(w, n, log, k) == if k in Replay(st, log) then Some(Replay(st, log)[k]) else None {
      NodesOf(h, all, Replay(st, log));
      ReaderReads(h, all, Replay(st, log), w.reader(n, h, k), k);
    }
  }

  lemma NodesOf(h: Copies, all: set<Peer>, st: Store)
    requires Backs(h, all, st)
    ensures h.Keys == set x | x in all :: x.key
  {
  }

  lemma ReaderReads(h: Copies, all: set<Peer>, st: Store, rd: Reader, k: Key)
    requires DistinctNodes(all) && Backs(h, all, st) && rd.r in all && GoodReaderOf(rd, h, k, all)
    ensures rd.r.key in h
    ensures Retrieval.Get(h[rd.r.key], rd.r, k, rd.net, rd.local) == if k in st then Some(st[k]) else None
  {
    hide Retrieval.Get, DistinctNodes, Retrieval.GoodReader;
    GetRefines(h, all, st, rd.r, k, rd.net, rd.local);
  }

  /** The trace has got as far as the progress on one store. */
  ghost predicate Follows(s: Trace, st: Store, p: Progress) {
    p.store == Replay(st, s.log) && p.added == s.added && p.errors == s.errors
  }

  lemma OneFollows(w: Deployment, all: set<Peer>, st: Store, s: Trace, p: Progress, hash: Bytes -> Key, disk: Disk,
                   file: Bytes)
    requires Deployed(w, all, st) && GoodLog(w, all, st, s.log) && Follows(s, st, p)
    ensures var t := TraceOne(w, s, hash, disk, file);
      && Follows(t, st, StoreOne(p, hash, disk, file, AllTake()))
      && t.log == s.log + OneOps(p, hash, disk, file)
  {
    hide Deployed, GoodLog, ReadAt, Replay, FileOps, FileName, Records;
    LogIsBacked(w, all, st, s.log);
    OneIsReplay(p, hash, disk, file);
    ReplayAppend(st, s.log, OneOps(p, hash, disk, file));
    assert s.log + [] == s.log;
  }

  lemma {:induction false} EachFollows(w: Deployment, all: set<Peer>, st: Store, s: Trace, p: Progress,
                                       hash: Bytes -> Key, disk: Disk, files: seq<Bytes>)
    requires Deployed(w, all, st) && Follows(s, st, p)
    requires GoodLog(w, all, st, s.log + EachOps(p, hash, disk, files))
    ensures var t := TraceEach(w, s, hash, disk, files);
      && Follows(t, st, StoreEach(p, hash, disk, files, EachTake()))
      && t.log == s.log + EachOps(p, hash, disk, files)
  {
    hide Deployed, GoodLog, Follows, TraceOne, StoreOne, OneOps;
    if files == [] {
      assert s.log + [] == s.log;
    } else {
      var n := |files| - 1;
      var t := TraceEach(w, s, hash, disk, files[..n]);
      PrefixIsGood(w, all, st, s.log + EachOps(p, hash, disk, files[..n]), s.log + EachOps(p, hash, disk, files));
      EachFollows(w, all, st, s, p, hash, disk, files[..n]);
      OneFollows(w, all, st, t, StoreEach(p, hash, disk, files[..n], EachTake()), hash, disk, files[n]);
    }
  }

  lemma CommandFollows(w: Deployment, all: set<Peer>, st: Store, s: Trace, hash: Bytes -> Key, c: Command)
    requires Deployed(w, all, st) && GoodLog(w, all, st, s.log + CommandOps(Replay(st, s.log), hash, c.disk, c.files))
    ensures TraceCommand(w, s, hash, c.disk, c.files).log ==
      s.log + CommandOps(Replay(st, s.log), hash, c.disk, c.files)
  {
    hide Deployed, GoodLog, ReadAt, Replay, TraceEach, StoreEach, EachOps, EncodeNames;
    var s0, p0 := s.(added := [], errors := []), Progress(Replay(st, s.log), [], []);
    var t := TraceEach(w, s0, hash, c.disk, c.files);
    var files := s.log + EachOps(p0, hash, c.disk, c.files);
    PrefixIsGood(w, all, st, files, s.log + CommandOps(Replay(st, s.log), hash, c.disk, c.files));
    EachFollows(w, all, st, s0, p0, hash, c.disk, c.files);
    LogIsBacked(w, all, st, t.log);
  }

  /** Over the network a run makes exactly the sets it makes on one store. */
  lemma {:induction false} RunFollows(w: Deployment, all: set<Peer>, st: Store, hash: Bytes -> Key, run: seq<Command>)
    requires Deployed(w, all, st) && GoodLog(w, all, st, AllOps(st, hash, run))
    ensures TraceRun(w, hash, run).log == AllOps(st, hash, run)
  {
    hide Deployed, GoodLog, Replay, TraceCommand, CommandOps;
    var first := SetOp(hash(INDEX), [], true);
    if run == [] {
      assert [first] + [] == [first];
    } else {
      var n := |run| - 1;
      var s := TraceRun(w, hash, run[..n]);
      AllIsReplay(st, hash, run[..n]);
      AllOpsStep(st, hash, run);
      PrefixIsGood(w, all, st, AllOps(st, hash, run[..n]), AllOps(st, hash, run));
      RunFollows(w, all, st, hash, run[..n]);
      CommandFollows(w, all, st, s, hash, run[n]);
    }
  }

  lemma AllOpsStep(st: Store, hash: Bytes -> Key, run: seq<Command>)
    requires run != []
    ensures var n := |run| - 1;
      AllOps(st, hash, run) ==
        AllOps(st, hash, run[..n]) +
        CommandOps(RunAll(st[hash(INDEX) := []], hash, run[..n], RunTake()), hash, run[n].disk, run[n].files)
  {
    hide CommandOps, RunAll;
  }

  lemma AllIsReplay(st: Store, hash: Bytes -> Key, run: seq<Command>)
    ensures Replay(st, AllOps(st, hash, run)) == RunAll(st[hash(INDEX) := []], hash, run, RunTake())
  {
    hide RunOps, Replay, RunAll;
    var first := SetOp(hash(INDEX), [], true);
    ReplayAppend(st, [first], RunOps(st[hash(INDEX) := []], hash, run));
    ReplayOne(st, first);
    RunIsReplay(st[hash(INDEX) := []], hash, run);
  }

  /**
   The run makes the sets it makes on one store; at its end the network is the store of
   those sets, which every read sees, and which lists and loads the catalogue.
   */
  ghost predicate RunsAsOnStore(w: Deployment, all: set<Peer>, st: Store, hash: Bytes -> Key, run: seq<Command>) {
    var log := TraceRun(w, hash, run).log;
    var end := Replay(st, log);
    && log == AllOps(st, hash, run)
    && Backs(CopiesAfter(w, log), all, end)
    && (forall n: nat, k :: ReadAt(w, n, log, k) == if k in end then Some(end[k]) else None)
    && ListsAndLoads(end, hash, Catalog(run))
  }

  /**
   A run of store commands over the network, each check, index read and set through some
   session: if each of its sets that changes a key reaches all nodes that copies of the
   key have reached, it runs as on one store.
   */
  lemma RunOverNetwork(w: Deployment, all: set<Peer>, st: Store, hash: Bytes -> Key, run: seq<Command>)
    requires Deployed(w, all, st) && Sane(st, hash, run) && Orderly(Catalog(run))
    requires GoodLog(w, all, st, AllOps(st, hash, run))
    ensures RunsAsOnStore(w, all, st, hash, run)
  {
    hide Catalog, Apart, Sane, Deployed, GoodLog, TraceRun, AllOps, Replay, Backs, ReadAt, ListsAndLoads;
    RunFollows(w, all, st, hash, run);
    LogIsBacked(w, all, st, TraceRun(w, hash, run).log);
    AllIsReplay(st, hash, run);
    RunUnder(st, hash, run, RunTake());
  }

  lemma EndIsBacked(h: Copies, all: set<Peer>, st: Store, ops: seq<SetOp>, vias: seq<Via>)
    requires |vias| == |ops| && BacksAfter(h, all, st, ops, vias, |ops|)
    ensures Backs(Drive(h, ops, vias), all, Replay(st, ops))
  {
    assert ops[..|ops|] == ops && vias[..|ops|] == vias;
  }

  // ---------- One session ----------

  /** Each of these sets is the index or the metadata of one of the files, by force, or a chunk of one under its key. */
  ghost predicate SetsOf(ops: seq<SetOp>, hash: Bytes -> Key, files: seq<Entry>) {
    forall op :: op in ops ==>
      if op.force then op.k == hash(INDEX) || exists e :: e in files && op.k == hash(e.name)
      else op.k == hash(op.data) && exists e :: e in files && op.data in Chunks(e.content)
  }

  lemma SetsMore(a: seq<SetOp>, b: seq<SetOp>, hash: Bytes -> Key, few: seq<Entry>, more: seq<Entry>)
    requires SetsOf(a, hash, few) && SetsOf(b, hash, more) && few <= more
    ensures SetsOf(a + b, hash, more)
  {
    hide Chunks;
    assert forall e :: e in few ==> e in more;
  }

  lemma FileSets(hash: Bytes -> Key, e: Entry, files: seq<Entry>)
    requires e in files
    ensures SetsOf(FileOps(hash, e.content, e.name), hash, files)
  {
    hide Chunks, Encode, HashAll;
    var chunks := Chunks(e.content);
    forall op | op in FileOps(hash, e.content, e.name) && !op.force ensures op.k == hash(op.data) && op.data in chunks {
      var i :| 0 <= i < |chunks| && op == ChunkOps(hash, chunks)[i];
    }
  }

  lemma OneSets(p: Progress, hash: Bytes -> Key, u: set<Bytes>, listed: seq<Bytes>, catalog: seq<Entry>, disk: Disk,
                file: Bytes)
    requires Holds(p.store, hash, u, listed, catalog) && NamesOf(catalog) == listed + p.added
    ensures SetsOf(OneOps(p, hash, disk, file), hash, Keep(catalog, Readable(disk, [file])))
  {
    hide Holds, FileOps, FileName, Keep, Readable, IndexRecords, Chunks;
    KeepOne(catalog, disk, file);
    ListedInCatalog(p, hash, u, listed, catalog);
    var name := FileName(file);
    if OneOps(p, hash, disk, file) != [] {
      FileSets(hash, Entry(name, disk[file]), catalog + [Entry(name, disk[file])]);
    }
  }

  lemma {:induction false} EachSets(st: Store, hash: Bytes -> Key, u: set<Bytes>, catalog: seq<Entry>, disk: Disk,
                                    files: seq<Bytes>)
    requires CollisionFree(hash, u) && Holds(st, hash, u, NamesOf(catalog), catalog)
    requires var after := Keep(catalog, Readable(disk, files)); MadeOf(after, u) && Apart(after)
    ensures SetsOf(EachOps(Progress(st, [], []), hash, disk, files), hash, Keep(catalog, Readable(disk, files)))
  {
    hide Holds, OneOps, StoreOne, FileName, MadeOf, Apart, CollisionFree, SetsOf;
    if files == [] {
      NoSets(hash, Keep(catalog, Readable(disk, files)));
    } else {
      var n := |files| - 1;
      var front, file := files[..n], files[n];
      assert files == front + [file];
      var kept := Keep(catalog, Readable(disk, front));
      ReadableAppend(disk, front, file);
      KeepAppend(catalog, Readable(disk, front), Readable(disk, [file]));
      KeepGrows(kept, Readable(disk, [file]));
      FewerAreApart(kept, Keep(catalog, Readable(disk, files)), u);
      EachSets(st, hash, u, catalog, disk, front);
      StoreEachHolds(st, hash, u, catalog, disk, front, EachTake());
      hide Keep, Readable;
      var p0 := Progress(st, [], []);
      var p := StoreEach(p0, hash, disk, front, EachTake());
      OneSets(p, hash, u, NamesOf(catalog), kept, disk, file);
      SetsMore(EachOps(p0, hash, disk, front), OneOps(p, hash, disk, file), hash, kept,
               Keep(catalog, Readable(disk, files)));
    }
  }

  lemma NoSets(hash: Bytes -> Key, files: seq<Entry>)
    ensures SetsOf([], hash, files)
  {
  }

  lemma IndexSet(hash: Bytes -> Key, data: Bytes, files: seq<Entry>)
    ensures SetsOf([SetOp(hash(INDEX), data, true)], hash, files)
  {
  }

  lemma CommandSets(st: Store, hash: Bytes -> Key, u: set<Bytes>, catalog: seq<Entry>, c: Command)
    requires CollisionFree(hash, u) && Holds(st, hash, u, NamesOf(catalog), catalog)
    requires var after := Keep(catalog, Readable(c.disk, c.files)); MadeOf(after, u) && Apart(after)
    ensures SetsOf(CommandOps(st, hash, c.disk, c.files), hash, Keep(catalog, Readable(c.disk, c.files)))
  {
    hide Holds, StoreEach, EachOps, MadeOf, Apart, CollisionFree, SetsOf, Keep, Readable, EncodeNames;
    EachSets(st, hash, u, catalog, c.disk, c.files);
    var p, after := AfterFiles(st, hash, c.disk, c.files, EachTake()), Keep(catalog, Readable(c.disk, c.files));
    var ops := EachOps(Progress(st, [], []), hash, c.disk, c.files);
    if hash(INDEX) in p.store {
      var data := p.store[hash(INDEX)] + EncodeNames(p.added);
      IndexSet(hash, data, after);
      SetsMore(ops, [SetOp(hash(INDEX), data, true)], hash, after, after);
    } else {
      assert ops + [] == ops;
    }
  }

  /** The sets of a run are those of its catalogue: the chunks and metadata of the files, and the index. */
  lemma {:induction false} RunSets(st: Store, hash: Bytes -> Key, u: set<Bytes>, run: seq<Command>)
    requires CollisionFree(hash, u) && Holds(st[hash(INDEX) := []], hash, u, [], [])
    requires MadeOf(Catalog(run), u) && Apart(Catalog(run))
    ensures SetsOf(AllOps(st, hash, run), hash, Catalog(run))
  {
    hide Holds, CollisionFree, MadeOf, Apart, Keep, Readable, SetsOf, CommandOps, StoreFiles;
    if run == [] {
      var first := SetOp(hash(INDEX), [], true);
      assert [first] + [] == [first];
      IndexSet(hash, [], Catalog(run));
    } else {
      var n := |run| - 1;
      var st0 := st[hash(INDEX) := []];
      CatalogStep(run);
      FewerAreApart(Catalog(run[..n]), Catalog(run), u);
      RunSets(st, hash, u, run[..n]);
      RunHolds(st0, hash, u, run[..n], RunTake());
      var before := RunAll(st0, hash, run[..n], RunTake());
      AllOpsStep(st, hash, run);
      hide Catalog, AllOps, RunAll;
      CommandSets(before, hash, u, Catalog(run[..n]), run[n]);
      SetsMore(AllOps(st, hash, run[..n]), CommandOps(before, hash, run[n].disk, run[n].files), hash,
               Catalog(run[..n]), Catalog(run));
    }
  }

  /** While the files are apart, what is under the key of a chunk is the chunk. */
  lemma {:induction false} ChunkKeysStay(st: Store, hash: Bytes -> Key, u: set<Bytes>, files: seq<Entry>,
                                         ops: seq<SetOp>, c: Bytes)
    requires CollisionFree(hash, u) && FreshFor(st, hash, u - {INDEX}) && Strings(files) <= u && INDEX in u
    requires SetsOf(ops, hash, files) && Apart(files)
    requires exists e :: e in files && c in Chunks(e.content)
    ensures hash(c) in Replay(st, ops) ==> Replay(st, ops)[hash(c)] == c
  {
    hide Chunks;
    if ops != [] {
      var n := |ops| - 1;
      assert forall op :: op in ops[..n] ==> op in ops;
      ChunkKeysStay(st, hash, u, files, ops[..n], c);
      assert ops[n] in ops;
      assert AllTake()(n);
    }
  }

  /** Copies that were there before, under a name of the run or "index", are at that session or its targets. */
  ghost predicate NamesWithinReach(h: Copies, all: set<Peer>, hash: Bytes -> Key, catalog: seq<Entry>, p: Peer,
                                   targets: Key -> seq<Peer>) {
    forall x, n ::
      x in all && (n == INDEX || n in NamesOf(catalog)) && x.key in h && hash(n) in h[x.key] ==>
        x == p || x in targets(hash(n))
  }

  /**
   A client that keeps to one session, whose targets for a key do not change, gets this
   without any condition on single sets: they only ever change names, by force, at the
   same nodes.
   */
  lemma OneSessionRuns(w: Deployment, all: set<Peer>, st: Store, hash: Bytes -> Key, run: seq<Command>, p: Peer,
                       targets: Key -> seq<Peer>)
    requires Deployed(w, all, st) && Sane(st, hash, run) && Orderly(Catalog(run))
    requires var ops := AllOps(st, hash, run);
      GoodVias(all, ops, ViasOf(w, |ops|)) && OneSession(ops, ViasOf(w, |ops|), p, targets)
    requires NamesWithinReach(w.start, all, hash, Catalog(run), p, targets)
    ensures GoodLog(w, all, st, AllOps(st, hash, run)) && RunsAsOnStore(w, all, st, hash, run)
  {
    hide Catalog, Apart, CollisionFree, FreshFor, Deployed, AllOps, Retrieval.GoodPublisher, Holds, MadeOf,
      RunsAsOnStore;
    var ops := AllOps(st, hash, run);
    SaneIsMadeOf(st, hash, run);
    RunSets(st, hash, RunStrings(run), run);
    forall i: nat | i < |ops| ensures ClearsAhead(w.start, all, st, ops, ViasOf(w, |ops|), i) {
      ChangesAreForced(w.start, all, st, hash, run, ops, p, targets, i);
      OneSessionClears(w.start, all, st, ops, ViasOf(w, |ops|), p, targets, i);
    }
    RunOverNetwork(w, all, st, hash, run);
  }

  lemma ChangesAreForced(h: Copies, all: set<Peer>, st: Store, hash: Bytes -> Key, run: seq<Command>, ops: seq<SetOp>,
                         p: Peer, targets: Key -> seq<Peer>, i: nat)
    requires Sane(st, hash, run) && Apart(Catalog(run)) && SetsOf(ops, hash, Catalog(run)) && i < |ops|
    requires NamesWithinReach(h, all, hash, Catalog(run), p, targets)
    ensures Changes(st, ops, i) ==> ops[i].force
    ensures WithinReach(h, all, st, ops, p, targets, i)
  {
    hide Catalog, Apart, CollisionFree, FreshFor, Replay, Chunks, Strings;
    var op, catalog := ops[i], Catalog(run);
    assert op in ops;
    if op.force {
      NamesAre(catalog);
    } else {
      assert forall o :: o in ops[..i] ==> o in ops;
      assert RunStrings(run) - {INDEX} == Strings(catalog) - {INDEX};
      ChunkKeysStay(st, hash, RunStrings(run), catalog, ops[..i], op.data);
    }
  }

  /**
   In a network that has lost that, some session reads something else: after the first
   set that leaves a stale copy behind, no single store answers for every session.
   */
  lemma StaleCopySplitsTheNetwork(h: Copies, all: set<Peer>, st: Store, ops: seq<SetOp>,
                                  vias: seq<Via>, i: nat,
                                  after: Copies)
    requires DistinctNodes(all) && GoodVias(all, ops, vias) && i < |ops|
    requires BacksAfter(h, all, st, ops, vias, i) && !Clears(h, all, ops, vias, i)
    requires after == Drive(h, ops[..i + 1], vias[..i + 1])
    ensures forall other :: !Backs(after, all, other)
  {
    hide Retrieval.NoStaleCopyElsewhere, Retrieval.GoodPublisher, DistinctNodes, IsNearestNode, Retrieval.Publish;
    assert ops[..i + 1][..i] == ops[..i] && vias[..i + 1][..i] == vias[..i];
    var before := Drive(h, ops[..i], vias[..i]);
    assert vias[i].p.key in before;
    SetRefinesExactly(before, all, Replay(st, ops[..i]), vias[i].p, ops[i], vias[i].buffer);
  }
}
