/**
 Names and chunks are hashed alike (src/client/file.cpp:10, 98, 112), so what is kept
 under a name and a chunk that spells that name meet at one key.  This module says
 what a store then holds, whichever unforced sets take effect, and exactly when every
 written file still reads back.

 A label is a byte string under whose key something other than itself is set by
 force: the metadata of a file under its name, the index under "index".
 */
module Labels {
  import opened Keys
  import opened Codec
  import opened Files

  datatype Entry = Entry(name: Bytes, content: Bytes)

  function NamesOf(entries: seq<Entry>): (names: seq<Bytes>)
    ensures |names| == |entries|
    ensures forall i :: 0 <= i < |names| ==> names[i] == entries[i].name
  {
    seq(|entries|, i requires 0 <= i < |entries| => entries[i].name)
  }

  function ContentsOf(entries: seq<Entry>): (contents: seq<Bytes>)
    ensures |contents| == |entries|
    ensures forall i :: 0 <= i < |contents| ==> contents[i] == entries[i].content
  {
    seq(|entries|, i requires 0 <= i < |entries| => entries[i].content)
  }

  ghost predicate DistinctNames(entries: seq<Entry>) {
    forall i, j :: 0 <= i < j < |entries| ==> entries[i].name != entries[j].name
  }

  // ---------- What a store holds ----------

  /** Over the byte strings `u`: every label has its data, every other string at most itself. */
  ghost predicate Settled(st: Store, hash: Bytes -> Key, u: set<Bytes>, labels: map<Bytes, Bytes>) {
    && labels.Keys <= u
    && (forall n :: n in labels ==> hash(n) in st && st[hash(n)] == labels[n])
    && (forall c :: c in u && c !in labels && hash(c) in st ==> st[hash(c)] == c)
  }

  /** Something is there under every chunk of the content. */
  ghost predicate Present(st: Store, hash: Bytes -> Key, content: Bytes) {
    forall c :: c in Chunks(content) ==> hash(c) in st
  }

  ghost predicate Within(content: Bytes, u: set<Bytes>) {
    forall c :: c in Chunks(content) ==> c in u
  }

  /** No chunk of the content is a label. */
  ghost predicate Unlabelled(content: Bytes, labels: map<Bytes, Bytes>) {
    forall c :: c in Chunks(content) ==> c !in labels
  }

  /** No unforced set over other bytes takes effect, or there is none. */
  ghost predicate Harmless(takes: Choice, content: Bytes, labels: map<Bytes, Bytes>) {
    (forall i :: !takes(i)) || Unlabelled(content, labels)
  }

  lemma ChunkLands(st: Store, hash: Bytes -> Key, u: set<Bytes>, labels: map<Bytes, Bytes>, c: Bytes, take: bool)
    requires CollisionFree(hash, u) && Settled(st, hash, u, labels) && c in u && (take ==> c !in labels)
    ensures var s := SetAs(st, SetOp(hash(c), c, false), take);
      Settled(s, hash, u, labels) && hash(c) in s && st.Keys <= s.Keys
  {
  }

  lemma {:induction false} ChunksLand(st: Store, hash: Bytes -> Key, u: set<Bytes>, labels: map<Bytes, Bytes>,
                                      chunks: seq<Bytes>, takes: Choice)
    requires CollisionFree(hash, u) && Settled(st, hash, u, labels) && forall c :: c in chunks ==> c in u
    requires (forall i :: !takes(i)) || forall c :: c in chunks ==> c !in labels
    ensures var s := SetAll(st, ChunkOps(hash, chunks), takes);
      && Settled(s, hash, u, labels) && st.Keys <= s.Keys
      && forall c :: c in chunks ==> hash(c) in s
  {
    if chunks != [] {
      var n := |chunks| - 1;
      var front, last := chunks[..n], chunks[n];
      assert chunks == front + [last];
      assert ChunkOps(hash, chunks)[..n] == ChunkOps(hash, front);
      hide Settled, CollisionFree, ChunkOps;
      ChunksLand(st, hash, u, labels, front, takes);
      ChunkLands(SetAll(st, ChunkOps(hash, front), takes), hash, u, labels, last, takes(n));
    }
  }

  lemma LabelLands(st: Store, hash: Bytes -> Key, u: set<Bytes>, labels: map<Bytes, Bytes>, n: Bytes, data: Bytes)
    requires CollisionFree(hash, u) && Settled(st, hash, u, labels) && n in u
    ensures Settled(st[hash(n) := data], hash, u, labels[n := data])
  {
  }

  function Metadata(hash: Bytes -> Key, content: Bytes): Bytes {
    Encode(HashAll(hash, Chunks(content)))
  }

  /** Writing a file labels its name with its metadata and leaves everything else as it was. */
  lemma WriteSettles(st: Store, hash: Bytes -> Key, u: set<Bytes>, labels: map<Bytes, Bytes>, entry: Entry,
                     takes: Choice)
    requires CollisionFree(hash, u) && Settled(st, hash, u, labels)
    requires entry.name in u && Within(entry.content, u) && Harmless(takes, entry.content, labels)
    ensures var s := WriteFile(st, hash, entry.content, entry.name, takes);
      && Settled(s, hash, u, labels[entry.name := Metadata(hash, entry.content)])
      && Present(s, hash, entry.content) && st.Keys <= s.Keys
  {
    hide Chunks, SetAll, ChunkOps, Encode, HashAll, Settled, CollisionFree, WriteFile;
    var chunks := Chunks(entry.content);
    WriteFileIs(st, hash, entry.content, entry.name, takes);
    ChunksLand(st, hash, u, labels, chunks, takes);
    LabelLands(SetAll(st, ChunkOps(hash, chunks), takes), hash, u, labels, entry.name, Metadata(hash, entry.content));
  }

  // ---------- What a read sees ----------

  /** The chunks as they read: a label's data in the place of the label. */
  function Seen(chunks: seq<Bytes>, labels: map<Bytes, Bytes>): seq<Bytes> {
    if chunks == [] then []
    else [if chunks[0] in labels then labels[chunks[0]] else chunks[0]] + Seen(chunks[1..], labels)
  }

  lemma {:induction false} FetchSeen(st: Store, hash: Bytes -> Key, u: set<Bytes>, labels: map<Bytes, Bytes>,
                                     chunks: seq<Bytes>)
    requires Settled(st, hash, u, labels) && forall c :: c in chunks ==> c in u && hash(c) in st
    ensures Fetch(st, HashAll(hash, chunks)) == Data(Concat(Seen(chunks, labels)))
  {
    if chunks != [] {
      assert forall c :: c in chunks[1..] ==> c in chunks;
      FetchSeen(st, hash, u, labels, chunks[1..]);
      assert HashAll(hash, chunks)[1..] == HashAll(hash, chunks[1..]);
      assert Seen(chunks, labels)[1..] == Seen(chunks[1..], labels);
    }
  }

  /** A file whose name has its metadata reads as its chunks with the labels' data in the labels' places. */
  lemma ReadSeen(st: Store, hash: Bytes -> Key, u: set<Bytes>, labels: map<Bytes, Bytes>, entry: Entry)
    requires Settled(st, hash, u, labels) && Within(entry.content, u) && Present(st, hash, entry.content)
    requires entry.name in labels && labels[entry.name] == Metadata(hash, entry.content)
    ensures ReadFiles(st, hash, [entry.name]) == Data(Concat(Seen(Chunks(entry.content), labels)))
  {
    hide Chunks, ParseKeys, Encode, Fetch;
    var keys := HashAll(hash, Chunks(entry.content));
    MetadataRoundTrip(keys);
    GatherNothing(st, hash);
    assert [entry.name][1..] == [];
    assert keys + [] == keys;
    assert GatherKeys(st, hash, [entry.name]) == Found(keys);
    FetchSeen(st, hash, u, labels, Chunks(entry.content));
  }

  /**
   What is set under a label can be told from the label: it is something else, and if
   the label is a full chunk, at byte 160 it has the NUL that the label lacks.
   */
  ghost predicate Marked(n: Bytes, data: Bytes) {
    data != n && (|n| < MAX_CHUNK_SIZE || (NUL !in n && |data| > KEYBITS && data[KEYBITS] == NUL))
  }

  ghost predicate AllMarked(labels: map<Bytes, Bytes>) {
    forall n :: n in labels ==> Marked(n, labels[n])
  }

  /** A read is right if and only if no chunk of the file is a label. */
  lemma {:induction false} SeenIsContentExactly(content: Bytes, labels: map<Bytes, Bytes>)
    requires AllMarked(labels)
    ensures Concat(Seen(Chunks(content), labels)) == content <==> Unlabelled(content, labels)
  {
    var chunks, seen := Chunks(content), Seen(Chunks(content), labels);
    var first := if chunks[0] in labels then labels[chunks[0]] else chunks[0];
    assert seen[0] == first && seen[1..] == Seen(chunks[1..], labels);
    if |content| < MAX_CHUNK_SIZE {
      assert chunks == [content] && seen[1..] == [] && first + [] == first;
    } else {
      var head, rest := content[..MAX_CHUNK_SIZE], content[MAX_CHUNK_SIZE..];
      assert chunks[1..] == Chunks(rest) && content == head + rest;
      var tail := Concat(seen[1..]);
      SeenIsContentExactly(rest, labels);
      if head in labels {
        assert (first + tail)[KEYBITS] == NUL && content[KEYBITS] == head[KEYBITS];
        assert head in chunks;
      } else {
        assert (head + tail)[MAX_CHUNK_SIZE..] == tail;
        assert chunks == [head] + Chunks(rest);
      }
    }
  }

  lemma MetadataIsMarked(hash: Bytes -> Key, name: Bytes, content: Bytes)
    requires NUL !in name
    ensures Marked(name, Metadata(hash, content))
  {
    var keys := HashAll(hash, Chunks(content));
    ChunksConcat(content);
    assert Encode(keys) == KeyString(keys[0]) + [NUL] + Encode(keys[1..]);
    assert Encode(keys)[KEYBITS] == NUL;
  }

  // ---------- Files written one after the other ----------

  function WriteAll(st: Store, hash: Bytes -> Key, files: seq<Entry>, takes: nat -> Choice): Store {
    if files == [] then st
    else
      var n := |files| - 1;
      WriteFile(WriteAll(st, hash, files[..n], takes), hash, files[n].content, files[n].name, takes(n))
  }

  function LabelsOf(hash: Bytes -> Key, files: seq<Entry>): map<Bytes, Bytes> {
    if files == [] then map[]
    else
      var n := |files| - 1;
      LabelsOf(hash, files[..n])[files[n].name := Metadata(hash, files[n].content)]
  }

  lemma NamesAre(files: seq<Entry>)
    ensures forall n :: n in NamesOf(files) <==> exists e :: e in files && e.name == n
  {
    forall e | e in files ensures e.name in NamesOf(files) {
      var i :| 0 <= i < |files| && files[i] == e;
      assert NamesOf(files)[i] == e.name;
    }
    forall n | n in NamesOf(files) ensures exists e :: e in files && e.name == n {
      var i :| 0 <= i < |files| && NamesOf(files)[i] == n;
      assert files[i] in files;
    }
  }

  lemma LastIsNew(files: seq<Entry>)
    requires DistinctNames(files) && files != []
    ensures var n := |files| - 1;
      && DistinctNames(files[..n]) && files[n].name !in NamesOf(files[..n])
      && NamesOf(files) == NamesOf(files[..n]) + [files[n].name]
  {
  }

  /** The labels of files are their names, each with its own file's metadata. */
  lemma {:induction false} LabelsAre(hash: Bytes -> Key, files: seq<Entry>)
    requires DistinctNames(files)
    ensures forall n :: n in LabelsOf(hash, files) <==> n in NamesOf(files)
    ensures forall i :: 0 <= i < |files| ==> LabelsOf(hash, files)[files[i].name] == Metadata(hash, files[i].content)
  {
    hide Metadata, DistinctNames;
    if files != [] {
      var n := |files| - 1;
      LastIsNew(files);
      LabelsAre(hash, files[..n]);
      forall i | 0 <= i < n ensures files[i].name in NamesOf(files[..n]) {
        assert NamesOf(files[..n])[i] == files[i].name;
      }
    }
  }

  lemma LabelsAreMarked(hash: Bytes -> Key, files: seq<Entry>)
    requires DistinctNames(files) && forall n :: n in NamesOf(files) ==> NUL !in n
    ensures AllMarked(LabelsOf(hash, files))
  {
    hide Metadata, Marked, LabelsOf, DistinctNames;
    LabelsAre(hash, files);
    forall n | n in LabelsOf(hash, files) ensures Marked(n, LabelsOf(hash, files)[n]) {
      var i :| 0 <= i < |files| && NamesOf(files)[i] == n;
      MetadataIsMarked(hash, n, files[i].content);
    }
  }

  /** Every byte string of these files: their names and their chunks. */
  function Strings(files: seq<Entry>): set<Bytes> {
    (set e | e in files :: e.name) + set e, c | e in files && c in Chunks(e.content) :: c
  }

  /** Nothing is in the store under these strings but the strings themselves. */
  ghost predicate FreshFor(st: Store, hash: Bytes -> Key, u: set<Bytes>) {
    forall c :: c in u && hash(c) in st ==> st[hash(c)] == c
  }

  /** No name of one of these files is a chunk of one of them. */
  ghost predicate NoNameIsChunk(files: seq<Entry>) {
    forall e, f :: e in files && f in files ==> e.name !in Chunks(f.content)
  }

  /** A file of the list is made of the strings of the list, and its front's labels do it no harm. */
  lemma LastIsHarmless(hash: Bytes -> Key, files: seq<Entry>, takes: Choice)
    requires files != [] && DistinctNames(files) && ((forall j :: !takes(j)) || NoNameIsChunk(files))
    ensures var n := |files| - 1;
      && Strings(files[..n]) <= Strings(files)
      && files[n].name in Strings(files) && Within(files[n].content, Strings(files))
      && (NoNameIsChunk(files) ==> NoNameIsChunk(files[..n]))
      && Harmless(takes, files[n].content, LabelsOf(hash, files[..n]))
  {
    hide Chunks, Metadata, LabelsOf;
    var n := |files| - 1;
    var front, last := files[..n], files[n];
    LastIsNew(files);
    LabelsAre(hash, front);
    NamesAre(front);
    assert last in files && forall e :: e in front ==> e in files;
  }

  lemma {:induction false} WritesSettle(st: Store, hash: Bytes -> Key, u: set<Bytes>, files: seq<Entry>,
                                        takes: nat -> Choice)
    requires CollisionFree(hash, u) && FreshFor(st, hash, u) && Strings(files) <= u && DistinctNames(files)
    requires (forall i, j :: !takes(i)(j)) || NoNameIsChunk(files)
    ensures var s := WriteAll(st, hash, files, takes);
      Settled(s, hash, u, LabelsOf(hash, files)) && forall e :: e in files ==> Present(s, hash, e.content)
  {
    hide Chunks, Metadata, Present, WriteFile, CollisionFree, Strings, Harmless, NoNameIsChunk, DistinctNames;
    if files != [] {
      var n := |files| - 1;
      var front, last := files[..n], files[n];
      LastIsNew(files);
      LastIsHarmless(hash, files, takes(n));
      hide Settled, FreshFor;
      WritesSettle(st, hash, u, front, takes);
      var before, after := WriteAll(st, hash, front, takes), WriteAll(st, hash, files, takes);
      WithinMore(last.content, Strings(files), u);
      WriteSettles(before, hash, u, LabelsOf(hash, front), last, takes(n));
      forall e | e in files ensures Present(after, hash, e.content) {
        if e in front {
          PresentMore(before, after, hash, e.content);
        } else {
          assert files == front + [last];
        }
      }
    }
  }

  lemma WithinMore(content: Bytes, u: set<Bytes>, v: set<Bytes>)
    requires Within(content, u) && u <= v
    ensures Within(content, v)
  {
  }

  lemma PresentMore(st: Store, s: Store, hash: Bytes -> Key, content: Bytes)
    requires Present(st, hash, content) && st.Keys <= s.Keys
    ensures Present(s, hash, content)
  {
  }

  /** Every file reads as it was written. */
  ghost predicate AllReadBack(st: Store, hash: Bytes -> Key, files: seq<Entry>) {
    forall e :: e in files ==> ReadFiles(st, hash, [e.name]) == Data(e.content)
  }

  /**
   The file round trip, exactly.  Files of distinct names, written one after the other
   into a store that has nothing else under their keys, all read back whichever
   unforced sets take effect, if and only if no name of one is a chunk of one.
   */
  lemma FilesRoundTripExactly(st: Store, hash: Bytes -> Key, files: seq<Entry>)
    requires DistinctNames(files) && forall n :: n in NamesOf(files) ==> NUL !in n
    requires CollisionFree(hash, Strings(files)) && FreshFor(st, hash, Strings(files))
    ensures (forall takes: nat -> Choice :: AllReadBack(WriteAll(st, hash, files, takes), hash, files)) <==>
            NoNameIsChunk(files)
  {
    hide AllReadBack, WriteAll;
    if NoNameIsChunk(files) {
      forall takes: nat -> Choice ensures AllReadBack(WriteAll(st, hash, files, takes), hash, files) {
        ReadBackUnder(st, hash, files, takes);
      }
    } else {
      ReadBackUnder(st, hash, files, _ => _ => false);
    }
  }

  /** One outcome: where the choices are harmless, everything reads back exactly if no name is a chunk. */
  lemma ReadBackUnder(st: Store, hash: Bytes -> Key, files: seq<Entry>, takes: nat -> Choice)
    requires DistinctNames(files) && forall n :: n in NamesOf(files) ==> NUL !in n
    requires CollisionFree(hash, Strings(files)) && FreshFor(st, hash, Strings(files))
    requires (forall i, j :: !takes(i)(j)) || NoNameIsChunk(files)
    ensures AllReadBack(WriteAll(st, hash, files, takes), hash, files) <==> NoNameIsChunk(files)
  {
    hide Chunks, Metadata, Settled, Present, ReadFiles, WriteAll, AllMarked, CollisionFree, FreshFor, LabelsOf,
      Concat, Seen;
    var s, labels := WriteAll(st, hash, files, takes), LabelsOf(hash, files);
    WritesSettle(st, hash, Strings(files), files, takes);
    LabelsAre(hash, files);
    LabelsAreMarked(hash, files);
    forall e | e in files
      ensures ReadFiles(s, hash, [e.name]) == Data(e.content) <==> Unlabelled(e.content, labels)
    {
      assert Within(e.content, Strings(files));
      var i :| 0 <= i < |files| && files[i] == e;
      assert NamesOf(files)[i] == e.name;
      ReadSeen(s, hash, Strings(files), labels, e);
      SeenIsContentExactly(e.content, labels);
    }
    UnlabelledExactly(hash, files);
  }

  lemma UnlabelledExactly(hash: Bytes -> Key, files: seq<Entry>)
    requires DistinctNames(files)
    ensures (forall e :: e in files ==> Unlabelled(e.content, LabelsOf(hash, files))) <==> NoNameIsChunk(files)
  {
    hide Chunks, Metadata, LabelsOf, AllMarked;
    LabelsAre(hash, files);
    NamesAre(files);
  }

  lemma OneFileUnder(st: Store, hash: Bytes -> Key, content: Bytes, name: Bytes, takes: Choice)
    requires NUL !in name
    requires CollisionFree(hash, Strings([Entry(name, content)])) && FreshFor(st, hash, Strings([Entry(name, content)]))
    requires (forall j :: !takes(j)) || name !in Chunks(content)
    ensures ReadFiles(WriteFile(st, hash, content, name, takes), hash, [name]) == Data(content) <==>
            name !in Chunks(content)
  {
    hide Chunks, ReadFiles, WriteFile, CollisionFree, FreshFor, Strings;
    var files := [Entry(name, content)];
    var all: nat -> Choice := _ => takes;
    assert files[0] in files && files[..0] == [];
    assert NoNameIsChunk(files) <==> name !in Chunks(content);
    ReadBackUnder(st, hash, files, all);
    assert all(0) == takes;
    assert WriteAll(st, hash, files, all) == WriteFile(st, hash, content, name, takes);
    assert AllReadBack(WriteFile(st, hash, content, name, takes), hash, files) <==>
      ReadFiles(WriteFile(st, hash, content, name, takes), hash, [name]) == Data(content);
  }

  /** One file: it reads back in every outcome exactly if its name is not one of its own chunks. */
  lemma FileRoundTripExactly(st: Store, hash: Bytes -> Key, content: Bytes, name: Bytes)
    requires NUL !in name
    requires CollisionFree(hash, Strings([Entry(name, content)])) && FreshFor(st, hash, Strings([Entry(name, content)]))
    ensures
      (forall takes: Choice :: ReadFiles(WriteFile(st, hash, content, name, takes), hash, [name]) == Data(content)) <==>
      name !in Chunks(content)
  {
    hide Chunks, ReadFiles, WriteFile, CollisionFree, FreshFor, Strings;
    if name in Chunks(content) {
      OneFileUnder(st, hash, content, name, _ => false);
    } else {
      forall takes: Choice
        ensures ReadFiles(WriteFile(st, hash, content, name, takes), hash, [name]) == Data(content)
      {
        OneFileUnder(st, hash, content, name, takes);
      }
    }
  }

  /** The failing family at its simplest: a short file whose bytes are its own name. */
  lemma FileSpellingItsName(st: Store, hash: Bytes -> Key, name: Bytes)
    requires NUL !in name && |name| < MAX_CHUNK_SIZE && hash(name) !in st
    ensures exists takes: Choice :: ReadFiles(WriteFile(st, hash, name, name, takes), hash, [name]) != Data(name)
  {
    assert Chunks(name) == [name];
    assert forall s :: s in Strings([Entry(name, name)]) ==> s == name;
    FileRoundTripExactly(st, hash, name, name);
  }

  /**
   Two files: a second file whose bytes are the first one's name.  If its chunk does
   not take effect the second does not read back, if it does the first has lost its
   metadata, and reads back only if it is empty.
   */
  lemma FileSpellingAnothersName(st: Store, hash: Bytes -> Key, x: Entry, y: Bytes, takes: Choice)
    requires NUL !in x.name && NUL !in y && x.name != y && |x.name| < MAX_CHUNK_SIZE
    requires y !in Chunks(x.content) && x.name !in Chunks(x.content)
    requires CollisionFree(hash, Strings([x, Entry(y, x.name)])) && FreshFor(st, hash, Strings([x, Entry(y, x.name)]))
    ensures var s := WriteFile(WriteFile(st, hash, x.content, x.name, takes), hash, x.name, y, takes);
      if takes(0) then ReadFiles(s, hash, [x.name]) == Data([])
      else ReadFiles(s, hash, [y]) == Data(Metadata(hash, x.content)) && Metadata(hash, x.content) != x.name
  {
    hide Metadata, Settled, SetAll, CollisionFree, ReadFiles, WriteFile, Seen, Concat;
    var u := Strings([x, Entry(y, x.name)]);
    assert Chunks(x.name) == [x.name];
    assert x in [x, Entry(y, x.name)] && Entry(y, x.name) in [x, Entry(y, x.name)];
    assert Within(x.content, u) && Within(x.name, u);
    FreshSettles(st, hash, u);
    WriteSettles(st, hash, u, map[], x, takes);
    var s1 := WriteFile(st, hash, x.content, x.name, takes);
    var labels := map[x.name := Metadata(hash, x.content)];
    MetadataIsMarked(hash, x.name, x.content);
    SecondFileWritten(s1, hash, x.name, y, takes);
    if takes(0) {
      Injective(hash, u, y, x.name);
      ReadsAsEmpty(WriteFile(s1, hash, x.name, y, takes), hash, x.name);
    } else {
      SecondFileWritten(s1, hash, x.name, y, _ => false);
      WriteSettles(s1, hash, u, labels, Entry(y, x.name), _ => false);
      var both := labels[y := Metadata(hash, x.name)];
      ReadSeen(WriteFile(s1, hash, x.name, y, takes), hash, u, both, Entry(y, x.name));
      SeenOne(x.name, both);
    }
  }

  lemma FreshSettles(st: Store, hash: Bytes -> Key, u: set<Bytes>)
    requires FreshFor(st, hash, u)
    ensures Settled(st, hash, u, map[])
  {
  }

  lemma Injective(hash: Bytes -> Key, u: set<Bytes>, a: Bytes, b: Bytes)
    requires CollisionFree(hash, u) && a in u && b in u && a != b
    ensures hash(a) != hash(b)
  {
  }

  lemma SeenOne(c: Bytes, labels: map<Bytes, Bytes>)
    requires c in labels
    ensures Concat(Seen([c], labels)) == labels[c]
  {
    assert Seen([c], labels) == [labels[c]];
    assert labels[c] + [] == labels[c];
  }

  lemma SecondFileWritten(st: Store, hash: Bytes -> Key, content: Bytes, name: Bytes, takes: Choice)
    requires |content| < MAX_CHUNK_SIZE
    ensures WriteFile(st, hash, content, name, takes) ==
      SetAs(st, SetOp(hash(content), content, false), takes(0))[hash(name) := Metadata(hash, content)]
  {
    WriteFileIs(st, hash, content, name, takes);
    assert Chunks(content) == [content];
    var ops := ChunkOps(hash, [content]);
    assert ops[..0] == [] && ops[0] == SetOp(hash(content), content, false);
  }

  lemma {:induction false} NoRecord(data: Bytes, curr: Bytes)
    requires NUL !in data
    ensures ParseKeys(data, curr) == Keys([])
  {
    if data != [] {
      NoRecord(data[1..], curr + [data[0]]);
    }
  }

  /** Where a name has bytes without a NUL in the place of metadata, it reads as an empty file. */
  lemma ReadsAsEmpty(st: Store, hash: Bytes -> Key, name: Bytes)
    requires hash(name) in st && NUL !in st[hash(name)]
    ensures ReadFiles(st, hash, [name]) == Data([])
  {
    NoRecord(st[hash(name)], []);
    GatherNothing(st, hash);
    AfterNone(Found([]));
    assert [name][1..] == [];
    assert GatherKeys(st, hash, [name]) == Found([]);
    FetchNothing(st);
  }
}
