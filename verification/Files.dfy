/**
 Files over the chunk store (src/client/file.cpp): chunking, content addressing,
 NUL-framed metadata and reassembly.

 SHA-1 with bit packing is any function `hash` from bytes to keys.  No hash into
 a finite set of keys is injective, so where collisions matter a result assumes
 there are none among the byte strings at hand (`CollisionFree`).
 */
module Files {
  import opened Keys
  import opened Codec

  type Store = map<Key, Bytes>

  const MAX_CHUNK_SIZE: nat := 1048576

  /** No two byte strings of the set share a key. */
  ghost predicate CollisionFree(hash: Bytes -> Key, s: set<Bytes>) {
    forall a, b :: a in s && b in s && hash(a) == hash(b) ==> a == b
  }

  /** One `set` of the chunk store. */
  datatype SetOp = SetOp(k: Key, data: Bytes, force: bool)

  /**
   Which of several sets take effect though something is already there and they are
   not forced.  The store decides; results quantify over every choice.
   */
  type Choice = nat -> bool

  function SetAs(st: Store, op: SetOp, takes: bool): Store {
    if op.force || op.k !in st || takes then st[op.k := op.data] else st
  }

  function SetAll(st: Store, ops: seq<SetOp>, takes: Choice): Store {
    if ops == [] then st
    else SetAs(SetAll(st, ops[..|ops| - 1], takes), ops[|ops| - 1], takes(|ops| - 1))
  }

  /** The chunks as every session sees them (see `Backing` for when sessions do see the same). */
  class Dht {
    var store: Store

    constructor ()
      ensures store == map[]
    {
      store := map[];
    }

    method Get(k: Key) returns (data: Option<Bytes>)
      ensures data == if k in store then Some(store[k]) else None
    {
      data := if k in store then Some(store[k]) else None;
    }

    /** A set that is not forced may leave a chunk that is already there alone. */
    method Set(k: Key, data: Bytes, force: bool) returns (ghost took: bool)
      modifies this
      ensures store == SetAs(old(store), SetOp(k, data, force), took)
    {
      var takes: bool := *;
      took := takes;
      if force || k !in store || takes {
        store := store[k := data];
      }
    }
  }

  // ---------- Chunks ----------

  /** What the reading loop cuts a file into: full chunks, then a shorter (maybe empty) one. */
  function Chunks(content: Bytes): seq<Bytes> {
    if |content| < MAX_CHUNK_SIZE then [content]
    else [content[..MAX_CHUNK_SIZE]] + Chunks(content[MAX_CHUNK_SIZE..])
  }

  function Concat(chunks: seq<Bytes>): Bytes {
    if chunks == [] then [] else chunks[0] + Concat(chunks[1..])
  }

  function HashAll(hash: Bytes -> Key, chunks: seq<Bytes>): seq<Key> {
    if chunks == [] then [] else [hash(chunks[0])] + HashAll(hash, chunks[1..])
  }

  function SetOf(chunks: seq<Bytes>): set<Bytes> {
    set c | c in chunks
  }

  /**
   A file of n bytes is n / 1048576 full chunks and one with the rest, which is empty
   when n is an exact multiple; together they are the file.
   */
  lemma {:induction false} ChunksConcat(content: Bytes)
    ensures Concat(Chunks(content)) == content
    ensures |Chunks(content)| == |content| / MAX_CHUNK_SIZE + 1
    ensures forall i :: 0 <= i < |content| / MAX_CHUNK_SIZE ==> |Chunks(content)[i]| == MAX_CHUNK_SIZE
    ensures |Chunks(content)[|content| / MAX_CHUNK_SIZE]| == |content| % MAX_CHUNK_SIZE
  {
    if |content| >= MAX_CHUNK_SIZE {
      var rest := content[MAX_CHUNK_SIZE..];
      ChunksConcat(rest);
      assert Chunks(content)[1..] == Chunks(rest);
      assert content[..MAX_CHUNK_SIZE] + rest == content;
    } else {
      assert Chunks(content)[1..] == [];
      assert content + [] == content;
    }
  }

  // ---------- Metadata ----------

  function Encode(keys: seq<Key>): Bytes {
    if keys == [] then [] else KeyString(keys[0]) + [NUL] + Encode(keys[1..])
  }

  /** The keys of a metadata chunk, or the exception of `Key(...)`. */
  datatype Parsed = Keys(keys: seq<Key>) | BadDigit

  /** The parsing loop: a record of the wrong length is skipped, an unterminated one is ignored. */
  function ParseKeys(data: Bytes, curr: Bytes): Parsed {
    if data == [] then Keys([])
    else if data[0] != NUL then ParseKeys(data[1..], curr + [data[0]])
    else if |curr| != KEYBITS then ParseKeys(data[1..], [])
    else
      match KeyFromString(curr)
      case None => BadDigit
      case Some(k) =>
        match ParseKeys(data[1..], [])
        case BadDigit => BadDigit
        case Keys(ks) => Keys([k] + ks)
  }

  lemma {:induction false} ParseRecord(record: Bytes, rest: Bytes, curr: Bytes)
    requires NUL !in record
    ensures ParseKeys(record + [NUL] + rest, curr) == ParseKeys([NUL] + rest, curr + record)
  {
    if record == [] {
      assert record + [NUL] + rest == [NUL] + rest && curr + record == curr;
    } else {
      var data := record + [NUL] + rest;
      assert data[1..] == record[1..] + [NUL] + rest;
      assert (curr + [record[0]]) + record[1..] == curr + record;
      ParseRecord(record[1..], rest, curr + [record[0]]);
    }
  }

  /** A terminated record of a key's text is parsed as that key. */
  lemma ParseKey(k: Key, rest: Bytes)
    ensures ParseKeys([NUL] + rest, KeyString(k)) ==
      match ParseKeys(rest, [])
      case BadDigit => BadDigit
      case Keys(ks) => Keys([k] + ks)
  {
    hide KeyFromString;
    KeyStringRoundTrip(k);
    assert ([NUL] + rest)[1..] == rest;
  }

  /** Parsing what was written gives the keys back. */
  lemma {:induction false} MetadataRoundTrip(keys: seq<Key>)
    ensures ParseKeys(Encode(keys), []) == Keys(keys)
  {
    if keys != [] {
      var s, rest := KeyString(keys[0]), Encode(keys[1..]);
      KeyStringRoundTrip(keys[0]);
      hide ParseKeys, KeyFromString;
      ParseRecord(s, rest, []);
      assert [] + s == s;
      ParseKey(keys[0], rest);
      MetadataRoundTrip(keys[1..]);
      assert [keys[0]] + keys[1..] == keys;
    } else {
      assert Encode(keys) == [];
    }
  }

  // ---------- Writing ----------

  /** The sets of the chunks of a file, in order. */
  function ChunkOps(hash: Bytes -> Key, chunks: seq<Bytes>): (ops: seq<SetOp>)
    ensures |ops| == |chunks|
  {
    seq(|chunks|, i requires 0 <= i < |chunks| => SetOp(hash(chunks[i]), chunks[i], false))
  }

  /** Every set of a file: its chunks under their hashes, then by force its metadata under the name. */
  function FileOps(hash: Bytes -> Key, content: Bytes, name: Bytes): seq<SetOp> {
    ChunkOps(hash, Chunks(content)) + [SetOp(hash(name), Encode(HashAll(hash, Chunks(content))), true)]
  }

  /** The store after a file was written. */
  function WriteFile(st: Store, hash: Bytes -> Key, content: Bytes, name: Bytes, takes: Choice): Store {
    SetAll(st, FileOps(hash, content, name), takes)
  }

  lemma WriteFileIs(st: Store, hash: Bytes -> Key, content: Bytes, name: Bytes, takes: Choice)
    ensures WriteFile(st, hash, content, name, takes) ==
      SetAll(st, ChunkOps(hash, Chunks(content)), takes)[hash(name) := Encode(HashAll(hash, Chunks(content)))]
  {
    hide Chunks, Encode, HashAll, ChunkOps;
    var ops := FileOps(hash, content, name);
    assert ops[..|ops| - 1] == ChunkOps(hash, Chunks(content));
  }

  /** Only the choices at the positions of the sets matter. */
  lemma {:induction false} SameChoices(st: Store, ops: seq<SetOp>, f: Choice, g: Choice)
    requires forall i :: 0 <= i < |ops| ==> f(i) == g(i)
    ensures SetAll(st, ops, f) == SetAll(st, ops, g)
  {
    if ops != [] {
      SameChoices(st, ops[..|ops| - 1], f, g);
    }
  }

  /** The choices that were observed, as a choice. */
  function Observed(took: seq<bool>): Choice {
    (i: nat) => i < |took| && took[i]
  }

  /** One more set, and what was observed of it. */
  lemma SetMore(st: Store, ops: seq<SetOp>, took: seq<bool>, op: SetOp, t: bool)
    requires |took| == |ops|
    ensures SetAll(st, ops + [op], Observed(took + [t])) == SetAs(SetAll(st, ops, Observed(took)), op, t)
  {
    assert (ops + [op])[..|ops|] == ops;
    SameChoices(st, ops, Observed(took + [t]), Observed(took));
  }

  /** The reading loop: cut the file into chunks and set each under its hash. */
  method StoreChunks(dht: Dht, hash: Bytes -> Key, file: Bytes) returns (chunks: seq<Key>, ghost took: seq<bool>)
    modifies dht
    ensures chunks == HashAll(hash, Chunks(file)) && |took| == |Chunks(file)|
    ensures dht.store == SetAll(old(dht.store), ChunkOps(hash, Chunks(file)), Observed(took))
  {
    hide Chunks, SetAll, HashAll, ChunkOps, Observed;
    ghost var st0, all := dht.store, Chunks(file);
    chunks, took := [], [];
    ghost var done: seq<Bytes> := [];
    NoChunks(st0, hash, file);
    var pos, eof := 0, false;
    while !eof
      invariant pos <= |file|
      invariant done + (if eof then [] else Chunks(file[pos..])) == all
      invariant chunks == HashAll(hash, done) && |took| == |done|
      invariant dht.store == SetAll(st0, ChunkOps(hash, done), Observed(took))
      decreases !eof, |file| - pos
    {
      var bytesRead := if |file| - pos < MAX_CHUNK_SIZE then |file| - pos else MAX_CHUNK_SIZE;
      eof := bytesRead < MAX_CHUNK_SIZE;
      var data := file[pos..pos + bytesRead];
      NextChunk(done, file, pos);
      var key := hash(data);
      ghost var t := dht.Set(key, data, false);
      AppendChunk(st0, hash, done, took, data, t);
      chunks, took := chunks + [key], took + [t];
      done := done + [data];
      pos := pos + bytesRead;
    }
    assert done == all;
  }

  /** The metadata of a file: the text of its chunk keys, each ended by a NUL. */
  method BuildMetadata(chunks: seq<Key>) returns (metadata: Bytes)
    ensures metadata == Encode(chunks)
  {
    metadata := [];
    var i := 0;
    while i < |chunks|
      invariant i <= |chunks|
      invariant metadata + Encode(chunks[i..]) == Encode(chunks)
    {
      EncodeStep(metadata, chunks, i);
      metadata := metadata + (KeyString(chunks[i]) + [NUL]);
      i := i + 1;
    }
  }

  lemma EncodeStep(metadata: Bytes, chunks: seq<Key>, i: nat)
    requires i < |chunks|
    ensures metadata + Encode(chunks[i..]) == (metadata + (KeyString(chunks[i]) + [NUL])) + Encode(chunks[i + 1..])
  {
    assert chunks[i..][0] == chunks[i] && chunks[i..][1..] == chunks[i + 1..];
  }

  /** `write_from_file`; `content` is none when the local file cannot be opened. */
  method WriteFromFile(dht: Dht, hash: Bytes -> Key, content: Option<Bytes>, name: Bytes)
    returns (ok: bool, ghost takes: Choice)
    modifies dht
    ensures ok <==> content.Some?
    ensures dht.store ==
      if ok then WriteFile(old(dht.store), hash, content.value, name, takes) else old(dht.store)
  {
    takes := _ => false;
    if content.None? {
      return false, takes;
    }
    var chunks;
    ghost var took;
    chunks, took := StoreChunks(dht, hash, content.value);
    var metadata := BuildMetadata(chunks);
    ghost var _ := dht.Set(hash(name), metadata, true);
    takes := Observed(took);
    WriteFileIs(old(dht.store), hash, content.value, name, takes);
    ok := true;
  }

  lemma NoChunks(st: Store, hash: Bytes -> Key, file: Bytes)
    ensures SetAll(st, ChunkOps(hash, []), Observed([])) == st && HashAll(hash, []) == []
    ensures [] + Chunks(file[0..]) == Chunks(file)
  {
    assert file[0..] == file;
  }

  /** One turn of the reading loop, on the list of chunks. */
  lemma NextChunk(done: seq<Bytes>, file: Bytes, pos: nat)
    requires pos <= |file|
    ensures |file| - pos < MAX_CHUNK_SIZE ==>
      done + Chunks(file[pos..]) == (done + [file[pos..|file|]]) + []
    ensures |file| - pos >= MAX_CHUNK_SIZE ==>
      done + Chunks(file[pos..]) == (done + [file[pos..pos + MAX_CHUNK_SIZE]]) + Chunks(file[pos + MAX_CHUNK_SIZE..])
  {
    var rest := file[pos..];
    if |rest| >= MAX_CHUNK_SIZE {
      assert file[pos..pos + MAX_CHUNK_SIZE] == rest[..MAX_CHUNK_SIZE];
      assert file[pos + MAX_CHUNK_SIZE..] == rest[MAX_CHUNK_SIZE..];
    } else {
      assert file[pos..|file|] == rest;
      assert (done + [rest]) + [] == done + [rest];
    }
  }

  lemma {:induction false} HashAllMore(hash: Bytes -> Key, done: seq<Bytes>, data: Bytes)
    ensures HashAll(hash, done + [data]) == HashAll(hash, done) + [hash(data)]
  {
    if done == [] {
      assert [] + [data] == [data] && [data][1..] == [];
    } else {
      assert (done + [data])[1..] == done[1..] + [data];
      HashAllMore(hash, done[1..], data);
    }
  }

  lemma AppendChunk(st: Store, hash: Bytes -> Key, done: seq<Bytes>, took: seq<bool>, data: Bytes, t: bool)
    requires |took| == |done|
    ensures HashAll(hash, done + [data]) == HashAll(hash, done) + [hash(data)]
    ensures SetAll(st, ChunkOps(hash, done + [data]), Observed(took + [t])) ==
      SetAs(SetAll(st, ChunkOps(hash, done), Observed(took)), SetOp(hash(data), data, false), t)
  {
    HashAllMore(hash, done, data);
    assert ChunkOps(hash, done + [data]) == ChunkOps(hash, done) + [SetOp(hash(data), data, false)];
    SetMore(st, ChunkOps(hash, done), took, SetOp(hash(data), data, false), t);
  }

  // ---------- Reading ----------

  /** What `read_in_files` does: the bytes, a return of false, or an exception out of `Key(...)`. */
  datatype ReadResult = Data(bytes: Bytes) | Failed | Threw

  /** The keys of the files in order, or why there are none. */
  datatype KeyList = Found(keys: seq<Key>) | Missing | Malformed

  /** What is left to gather, after `ks`. */
  function After(ks: seq<Key>, g: KeyList): KeyList {
    if g.Found? then Found(ks + g.keys) else g
  }

  function Parse(data: Bytes, curr: Bytes): KeyList {
    match ParseKeys(data, curr)
    case BadDigit => Malformed
    case Keys(ks) => Found(ks)
  }

  function GatherKeys(st: Store, hash: Bytes -> Key, files: seq<Bytes>): KeyList {
    if files == [] then Found([])
    else if hash(files[0]) !in st then Missing
    else
      var own := Parse(st[hash(files[0])], []);
      if own.Found? then After(own.keys, GatherKeys(st, hash, files[1..])) else own
  }

  function Fetch(st: Store, keys: seq<Key>): ReadResult {
    if keys == [] then Data([])
    else if keys[0] !in st then Failed
    else
      var rest := Fetch(st, keys[1..]);
      if rest.Data? then Data(st[keys[0]] + rest.bytes) else rest
  }

  function ReadFiles(st: Store, hash: Bytes -> Key, files: seq<Bytes>): ReadResult {
    match GatherKeys(st, hash, files)
    case Missing => Failed
    case Malformed => Threw
    case Found(keys) => Fetch(st, keys)
  }

  lemma ParseNone(data: Bytes)
    ensures Parse([], data) == Found([])
  {
  }

  /** One turn of the character loop. */
  lemma ParseStep(data: Bytes, i: nat, curr: Bytes)
    requires i < |data|
    ensures data[i] != NUL ==> Parse(data[i..], curr) == Parse(data[i + 1..], curr + [data[i]])
    ensures data[i] == NUL && |curr| != KEYBITS ==> Parse(data[i..], curr) == Parse(data[i + 1..], [])
    ensures data[i] == NUL && |curr| == KEYBITS && KeyFromString(curr).None? ==> Parse(data[i..], curr) == Malformed
    ensures data[i] == NUL && |curr| == KEYBITS && KeyFromString(curr).Some? ==>
      Parse(data[i..], curr) == After([KeyFromString(curr).value], Parse(data[i + 1..], []))
  {
    hide KeyFromString;
    assert data[i..][0] == data[i] && data[i..][1..] == data[i + 1..];
  }

  lemma AfterAfter(a: seq<Key>, b: seq<Key>, g: KeyList)
    ensures After(a, After(b, g)) == After(a + b, g)
  {
    if g.Found? {
      assert a + (b + g.keys) == (a + b) + g.keys;
    }
  }

  /** The character loop over one metadata chunk, which appends the keys it finds. */
  method ReadMetadata(metadata: Bytes, orderedKeys: seq<Key>) returns (r: KeyList)
    ensures r == After(orderedKeys, Parse(metadata, []))
  {
    hide KeyFromString, Parse;
    var keys, curr := orderedKeys, [];
    var i := 0;
    assert metadata[0..] == metadata;
    while i < |metadata|
      invariant i <= |metadata|
      invariant After(keys, Parse(metadata[i..], curr)) == After(orderedKeys, Parse(metadata, []))
    {
      ParseStep(metadata, i, curr);
      if metadata[i] == NUL {
        if |curr| == KEYBITS {
          var key := KeyFromString(curr);
          if key.None? {
            return Malformed;
          }
          AfterAfter(keys, [key.value], Parse(metadata[i + 1..], []));
          keys := keys + [key.value];
        }
        curr := [];
      } else {
        curr := curr + [metadata[i]];
      }
      i := i + 1;
    }
    assert metadata[i..] == [];
    ParseNone(curr);
    assert keys + [] == keys;
    r := Found(keys);
  }

  lemma GatherStep(st: Store, hash: Bytes -> Key, files: seq<Bytes>, i: nat)
    requires i < |files|
    ensures hash(files[i]) !in st ==> GatherKeys(st, hash, files[i..]) == Missing
    ensures hash(files[i]) in st ==>
      var own := Parse(st[hash(files[i])], []);
      GatherKeys(st, hash, files[i..]) ==
        if own.Found? then After(own.keys, GatherKeys(st, hash, files[i + 1..])) else own
  {
    hide Parse;
    assert files[i..][0] == files[i] && files[i..][1..] == files[i + 1..];
  }

  /** The chunks under the keys, in order, missing ones included. */
  function ChunksAt(st: Store, keys: seq<Key>): seq<Option<Bytes>> {
    seq(|keys|, i requires 0 <= i < |keys| => if keys[i] in st then Some(st[keys[i]]) else None)
  }

  lemma {:induction false} FetchPrefix(st: Store, keys: seq<Key>)
    ensures Fetch(st, keys).Data? <==> forall k :: k in keys ==> k in st
    ensures Fetch(st, keys) == Failed || Fetch(st, keys).Data?
  {
    if keys != [] {
      FetchPrefix(st, keys[1..]);
    }
  }

  lemma {:induction false} FetchAppend(st: Store, a: seq<Key>, b: seq<Key>)
    ensures Fetch(st, a + b) ==
      if Fetch(st, a).Data? && Fetch(st, b).Data? then Data(Fetch(st, a).bytes + Fetch(st, b).bytes) else Failed
  {
    FetchPrefix(st, b);
    if a == [] {
      assert a + b == b;
      assert Fetch(st, b).Data? ==> [] + Fetch(st, b).bytes == Fetch(st, b).bytes;
    } else {
      assert (a + b)[0] == a[0] && (a + b)[1..] == a[1..] + b;
      FetchAppend(st, a[1..], b);
      if a[0] in st && Fetch(st, a[1..]).Data? && Fetch(st, b).Data? {
        var x, y, z := st[a[0]], Fetch(st, a[1..]).bytes, Fetch(st, b).bytes;
        assert (x + y) + z == x + (y + z);
      } else {
        FetchPrefix(st, a);
        FetchPrefix(st, a[1..]);
      }
    }
  }

  lemma FetchNext(st: Store, keys: seq<Key>, i: nat)
    requires i < |keys|
    ensures Fetch(st, keys[..i + 1]) ==
      if Fetch(st, keys[..i]).Data? && keys[i] in st then Data(Fetch(st, keys[..i]).bytes + st[keys[i]]) else Failed
  {
    FetchAppend(st, keys[..i], [keys[i]]);
    assert keys[..i + 1] == keys[..i] + [keys[i]];
    assert Fetch(st, [keys[i]]) == if keys[i] in st then Data(st[keys[i]]) else Failed by {
      assert [keys[i]][1..] == [];
      if keys[i] in st {
        assert st[keys[i]] + [] == st[keys[i]];
      }
    }
  }

  /** Joins the fetched chunks; one that is missing fails the read. */
  method JoinChunks(ghost st: Store, ghost keys: seq<Key>, orderedChunks: seq<Option<Bytes>>) returns (r: ReadResult)
    requires orderedChunks == ChunksAt(st, keys)
    ensures r == Fetch(st, keys)
  {
    hide Fetch;
    var success, buffer := true, [];
    FetchAppend(st, [], []);
    FetchNothing(st);
    var i := 0;
    while i < |orderedChunks|
      invariant i <= |orderedChunks| == |keys|
      invariant Fetch(st, keys[..i]) == if success then Data(buffer) else Failed
    {
      FetchNext(st, keys, i);
      match orderedChunks[i] {
        case None =>
          success := false;
        case Some(chunk) =>
          if success {
            buffer := buffer + chunk;
          }
      }
      i := i + 1;
    }
    assert keys[..i] == keys;
    r := if success then Data(buffer) else Failed;
  }

  lemma FetchNothing(st: Store)
    ensures Fetch(st, []) == Data([])
  {
  }

  /** `read_in_files`: the keys of every file first, then every chunk, then the concatenation. */
  method ReadInFiles(dht: Dht, hash: Bytes -> Key, files: seq<Bytes>) returns (r: ReadResult)
    ensures r == ReadFiles(dht.store, hash, files)
  {
    hide GatherKeys, Parse, Fetch;
    var st := dht.store;
    var keys := [];
    var i := 0;
    assert files[0..] == files;
    assert After([], GatherKeys(st, hash, files)) == GatherKeys(st, hash, files) by {
      AfterNone(GatherKeys(st, hash, files));
    }
    while i < |files|
      invariant i <= |files|
      invariant After(keys, GatherKeys(st, hash, files[i..])) == GatherKeys(st, hash, files)
    {
      GatherStep(st, hash, files, i);
      var metadata := dht.Get(hash(files[i]));
      if metadata.None? {
        return Failed;
      }
      var g := ReadMetadata(metadata.value, keys);
      match g {
        case Missing =>
          return Failed;
        case Malformed =>
          return Threw;
        case Found(more) =>
          AfterAfter(keys, Parse(metadata.value, []).keys, GatherKeys(st, hash, files[i + 1..]));
          keys := more;
      }
      i := i + 1;
    }
    assert files[i..] == [];
    GatherNothing(st, hash);
    assert keys + [] == keys;
    var orderedChunks: seq<Option<Bytes>> := [];
    for j := 0 to |keys|
      invariant orderedChunks == ChunksAt(st, keys)[..j]
    {
      var chunk := dht.Get(keys[j]);
      orderedChunks := orderedChunks + [chunk];
    }
    r := JoinChunks(st, keys, orderedChunks);
  }

  lemma GatherNothing(st: Store, hash: Bytes -> Key)
    ensures GatherKeys(st, hash, []) == Found([])
  {
  }

  lemma AfterNone(g: KeyList)
    ensures After([], g) == g
  {
    if g.Found? {
      assert [] + g.keys == g.keys;
    }
  }

  // ---------- Round trips ----------

  /** The store holds this file whole: its metadata and every chunk. */
  ghost predicate Stored(st: Store, hash: Bytes -> Key, name: Bytes, content: Bytes) {
    && hash(name) in st
    && Parse(st[hash(name)], []) == Found(HashAll(hash, Chunks(content)))
    && forall c :: c in Chunks(content) ==> hash(c) in st && st[hash(c)] == c
  }

  lemma {:induction false} FetchChunks(st: Store, hash: Bytes -> Key, chunks: seq<Bytes>)
    requires forall c :: c in chunks ==> hash(c) in st && st[hash(c)] == c
    ensures Fetch(st, HashAll(hash, chunks)) == Data(Concat(chunks))
  {
    if chunks != [] {
      assert forall c :: c in chunks[1..] ==> c in chunks;
      FetchChunks(st, hash, chunks[1..]);
      assert HashAll(hash, chunks)[1..] == HashAll(hash, chunks[1..]);
    }
  }

  /** Any list of stored names reads the concatenation of their contents, in the order asked. */
  lemma {:induction false} ReadStored(st: Store, hash: Bytes -> Key, names: seq<Bytes>, contents: seq<Bytes>)
    requires |names| == |contents|
    requires forall i :: 0 <= i < |names| ==> Stored(st, hash, names[i], contents[i])
    ensures ReadFiles(st, hash, names) == Data(Concat(contents))
  {
    hide Parse, Chunks;
    if names != [] {
      assert Stored(st, hash, names[0], contents[0]);
      ReadStored(st, hash, names[1..], contents[1..]);
      var own := HashAll(hash, Chunks(contents[0]));
      FetchChunks(st, hash, Chunks(contents[0]));
      ChunksConcat(contents[0]);
      FetchAppend(st, own, GatherKeys(st, hash, names[1..]).keys);
    }
  }
}
