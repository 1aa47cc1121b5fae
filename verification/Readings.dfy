/**
 When a read of files succeeds, fails or throws (src/client/file.cpp:124-185), said of
 the records of their metadata and the chunks under the keys these spell.
 */
module Readings {
  import opened Keys
  import opened Codec
  import opened Files
  import opened Commands

  // ---------- Metadata as records ----------

  /** A record of the length of a key that is not one: `Key(...)` throws on it. */
  predicate BadRecord(r: Bytes) {
    |r| == KEYBITS && KeyFromString(r).None?
  }

  /** The keys among these records; those of another length are skipped. */
  function KeyRecords(records: seq<Bytes>): seq<Key> {
    if records == [] then []
    else
      var r := records[0];
      (if |r| == KEYBITS && KeyFromString(r).Some? then [KeyFromString(r).value] else []) + KeyRecords(records[1..])
  }

  ghost predicate HasBadRecord(records: seq<Bytes>) {
    exists r :: r in records && BadRecord(r)
  }

  lemma BadRecordFirst(r: Bytes, rest: seq<Bytes>)
    ensures HasBadRecord([r] + rest) <==> BadRecord(r) || HasBadRecord(rest)
    ensures !HasBadRecord([])
  {
    hide BadRecord;
    if BadRecord(r) {
      assert r in [r] + rest;
    }
    if HasBadRecord(rest) {
      var b :| b in rest && BadRecord(b);
      assert b in [r] + rest;
    }
  }

  lemma {:induction false} ParseMeansFrom(data: Bytes, curr: Bytes)
    ensures Parse(data, curr) ==
      if HasBadRecord(Records(data, curr)) then Malformed else Found(KeyRecords(Records(data, curr)))
  {
    if data != [] {
      hide KeyFromString, HasBadRecord;
      BadRecordFirst(curr, Records(data[1..], []));
      if data[0] != NUL {
        ParseMeansFrom(data[1..], curr + [data[0]]);
      } else {
        ParseMeansFrom(data[1..], []);
        var rest := Records(data[1..], []);
        assert Records(data, curr) == [curr] + rest && ([curr] + rest)[1..] == rest;
        assert [] + KeyRecords(rest) == KeyRecords(rest);
      }
    } else {
      BadRecordFirst([], []);
    }
  }

  /** The character loop reads the terminated records: it throws on a bad one, and else gives the keys in order. */
  lemma ParseMeans(data: Bytes)
    ensures Parse(data, []) ==
      if HasBadRecord(Records(data, [])) then Malformed else Found(KeyRecords(Records(data, [])))
  {
    ParseMeansFrom(data, []);
  }

  // ---------- Reading files ----------

  /** The records of what is stored under the name of the file. */
  function RecordsUnder(st: Store, hash: Bytes -> Key, name: Bytes): seq<Bytes> {
    if hash(name) in st then Records(st[hash(name)], []) else []
  }

  /** The read stops at this file: nothing is stored under its name, or something with a bad record. */
  ghost predicate Stops(st: Store, hash: Bytes -> Key, name: Bytes) {
    hash(name) !in st || HasBadRecord(RecordsUnder(st, hash, name))
  }

  /** The keys that the metadata of these files spell, in order. */
  function KeysSpelled(st: Store, hash: Bytes -> Key, files: seq<Bytes>): seq<Key> {
    if files == [] then []
    else KeyRecords(RecordsUnder(st, hash, files[0])) + KeysSpelled(st, hash, files[1..])
  }

  ghost predicate AllThere(st: Store, keys: seq<Key>) {
    forall k :: k in keys ==> k in st
  }

  function DataUnder(st: Store, keys: seq<Key>): (chunks: seq<Bytes>)
    requires AllThere(st, keys)
    ensures |chunks| == |keys| && forall i :: 0 <= i < |keys| ==> chunks[i] == st[keys[i]]
  {
    seq(|keys|, i requires 0 <= i < |keys| => st[keys[i]])
  }

  lemma {:induction false} FetchMeans(st: Store, keys: seq<Key>)
    ensures Fetch(st, keys) == if AllThere(st, keys) then Data(Concat(DataUnder(st, keys))) else Failed
  {
    if keys != [] {
      FetchMeans(st, keys[1..]);
      if AllThere(st, keys) {
        assert DataUnder(st, keys)[1..] == DataUnder(st, keys[1..]);
      }
    }
  }

  lemma GatherFirst(st: Store, hash: Bytes -> Key, files: seq<Bytes>)
    requires files != []
    ensures GatherKeys(st, hash, files) ==
      if hash(files[0]) !in st then Missing
      else if Stops(st, hash, files[0]) then Malformed
      else After(KeyRecords(RecordsUnder(st, hash, files[0])), GatherKeys(st, hash, files[1..]))
  {
    hide KeyRecords, HasBadRecord, Records;
    if hash(files[0]) in st {
      ParseMeans(st[hash(files[0])]);
    }
  }

  lemma {:induction false} GatherStops(st: Store, hash: Bytes -> Key, files: seq<Bytes>, i: nat)
    requires i < |files| && Stops(st, hash, files[i]) && forall j :: 0 <= j < i ==> !Stops(st, hash, files[j])
    ensures GatherKeys(st, hash, files) == if hash(files[i]) !in st then Missing else Malformed
  {
    hide Stops, GatherKeys;
    GatherFirst(st, hash, files);
    if i > 0 {
      assert !Stops(st, hash, files[0]);
      StopsIfMissing(st, hash, files[0]);
      GatherStops(st, hash, files[1..], i - 1);
    }
  }

  lemma StopsIfMissing(st: Store, hash: Bytes -> Key, name: Bytes)
    ensures hash(name) !in st ==> Stops(st, hash, name)
  {
  }

  lemma {:induction false} GatherAll(st: Store, hash: Bytes -> Key, files: seq<Bytes>)
    requires forall f :: f in files ==> !Stops(st, hash, f)
    ensures GatherKeys(st, hash, files) == Found(KeysSpelled(st, hash, files))
  {
    if files != [] {
      hide Stops, GatherKeys;
      assert files[0] in files;
      StopsIfMissing(st, hash, files[0]);
      GatherFirst(st, hash, files);
      GatherAll(st, hash, files[1..]);
    } else {
      GatherNothing(st, hash);
    }
  }

  /**
   A read, exactly.  The first file at which it stops decides: nothing under its name
   fails the read, a bad record throws.  If it stops at none, it gives the data under
   all keys that the metadata spell, in order, or fails if one of them is not there.
   */
  lemma ReadFilesExactly(st: Store, hash: Bytes -> Key, files: seq<Bytes>)
    ensures forall i ::
      0 <= i < |files| && Stops(st, hash, files[i]) && (forall j :: 0 <= j < i ==> !Stops(st, hash, files[j])) ==>
        ReadFiles(st, hash, files) == if hash(files[i]) !in st then Failed else Threw
    ensures (forall f :: f in files ==> !Stops(st, hash, f)) ==>
      var keys := KeysSpelled(st, hash, files);
      ReadFiles(st, hash, files) == if AllThere(st, keys) then Data(Concat(DataUnder(st, keys))) else Failed
  {
    hide Stops, GatherKeys, KeysSpelled, Fetch;
    forall i: nat |
      i < |files| && Stops(st, hash, files[i]) && (forall j :: 0 <= j < i ==> !Stops(st, hash, files[j]))
      ensures ReadFiles(st, hash, files) == if hash(files[i]) !in st then Failed else Threw
    {
      GatherStops(st, hash, files, i);
    }
    if forall f :: f in files ==> !Stops(st, hash, f) {
      GatherAll(st, hash, files);
      FetchMeans(st, KeysSpelled(st, hash, files));
    }
  }

  lemma {:induction false} FirstStop(st: Store, hash: Bytes -> Key, files: seq<Bytes>, i: nat) returns (first: nat)
    requires i < |files| && Stops(st, hash, files[i])
    ensures first <= i && Stops(st, hash, files[first]) && forall j :: 0 <= j < first ==> !Stops(st, hash, files[j])
  {
    if j: nat :| j < i && Stops(st, hash, files[j]) {
      first := FirstStop(st, hash, files, j);
    } else {
      first := i;
    }
  }

  /** So bytes come back only if something is stored under every name and every key it spells. */
  lemma ReadsOnlyWhatIsThere(st: Store, hash: Bytes -> Key, files: seq<Bytes>)
    requires ReadFiles(st, hash, files).Data?
    ensures forall f :: f in files ==> hash(f) in st
    ensures AllThere(st, KeysSpelled(st, hash, files))
  {
    hide Stops, ReadFiles, KeysSpelled;
    ReadFilesExactly(st, hash, files);
    forall f | f in files ensures !Stops(st, hash, f) {
      var i :| 0 <= i < |files| && files[i] == f;
      if Stops(st, hash, f) {
        var first := FirstStop(st, hash, files, i);
        assert false;
      }
    }
    forall f | f in files ensures hash(f) in st {
      StopsIfMissing(st, hash, f);
    }
  }

  /** A file that is stored whole does not stop a read. */
  lemma StoredDoesNotStop(st: Store, hash: Bytes -> Key, name: Bytes, content: Bytes)
    requires Files.Stored(st, hash, name, content)
    ensures !Stops(st, hash, name)
  {
    hide HasBadRecord, KeyRecords, Records, Chunks, HashAll, Parse;
    ParseMeans(st[hash(name)]);
  }
}
