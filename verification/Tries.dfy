/**
 The routing table of src/dht/router.cpp as a value: an unbalanced binary trie
 whose leaves hold capped buckets, most recently touched peer first.

 A node is addressed by its path: the bits a key must start with to be routed
 there.  A node at depth `d` splits on bit `KEYBITS - 1 - d`, which is `k[d]`.
 */
module Tries {
  import opened Keys

  const KBUCKET_MAX: nat := 20

  datatype Trie = Leaf(bucket: seq<Peer>) | Joint(zero: Trie, one: Trie) {
    function Child(b: bool): Trie
      requires Joint?
    {
      if b then one else zero
    }

    function WithChild(b: bool, t: Trie): Trie
      requires Joint?
    {
      if b then Joint(zero, t) else Joint(t, one)
    }
  }

  datatype InsertResult = Inserted(t: Trie) | Refused(t: Trie, lru: Peer)

  // ---------- Buckets ----------

  /** The first position of `k` in the bucket, or its length. */
  function Find(b: seq<Peer>, k: Key): (i: nat)
    ensures i <= |b|
    ensures i < |b| ==> b[i].key == k
    ensures forall j :: 0 <= j < i ==> b[j].key != k
  {
    if b == [] || b[0].key == k then 0 else 1 + Find(b[1..], k)
  }

  function Erased(b: seq<Peer>, i: nat): seq<Peer>
    requires i < |b|
  {
    b[..i] + b[i + 1..]
  }

  /** Overwrite the peer at `i` and rotate it to the front. */
  function Touched(b: seq<Peer>, i: nat, x: Peer): seq<Peer>
    requires i < |b|
  {
    [x] + Erased(b, i)
  }

  /** The peers of a bucket whose bit at depth `d` is `bit`, in order. */
  function Half(b: seq<Peer>, d: nat, bit: bool): seq<Peer>
    requires d < KEYBITS
  {
    if b == [] then []
    else (if b[0].key[d] == bit then [b[0]] else []) + Half(b[1..], d, bit)
  }

  // ---------- Operations ----------

  /** No joint splits on the last bit, and no node is deeper than the key. */
  predicate Fits(t: Trie, d: nat) {
    match t
    case Leaf(_) => d < KEYBITS
    case Joint(z, o) => d + 1 < KEYBITS && Fits(z, d + 1) && Fits(o, d + 1)
  }

  function Split(b: seq<Peer>, d: nat): Trie
    requires d < KEYBITS
  {
    Joint(Leaf(Half(b, d, false)), Leaf(Half(b, d, true)))
  }

  function Insert(t: Trie, d: nat, self: Key, x: Peer): InsertResult
    requires Fits(t, d)
    decreases KEYBITS - d, t.Leaf?
  {
    match t
    case Joint(_, _) =>
      var r := Insert(t.Child(x.key[d]), d + 1, self, x);
      r.(t := t.WithChild(x.key[d], r.t))
    case Leaf(b) =>
      var i := Find(b, x.key);
      if i < |b| then Inserted(Leaf(Touched(b, i, x)))
      else if |b| < KBUCKET_MAX then Inserted(Leaf([x] + b))
      else if x.key[d] == self[d] && KEYBITS - 1 - d > 0 then
        assert Fits(Split(b, d).zero, d + 1) && Fits(Split(b, d).one, d + 1);
        Insert(Split(b, d), d, self, x)
      else Refused(t, b[|b| - 1])
  }

  function Evict(t: Trie, d: nat, k: Key): Trie
    requires Fits(t, d)
  {
    match t
    case Joint(_, _) => t.WithChild(k[d], Evict(t.Child(k[d]), d + 1, k))
    case Leaf(b) =>
      var i := Find(b, k);
      if i < |b| then Leaf(Erased(b, i)) else t
  }

  /** `attempt_insert_peer`: the own key and the own endpoint are accepted and ignored. */
  function AttemptInsert(t: Trie, self: Peer, x: Peer): InsertResult
    requires Fits(t, 0)
  {
    if x.key == self.key || x.endpoint == self.endpoint then Inserted(t)
    else Insert(t, 0, self.key, x)
  }

  /** `evict_peer`. */
  function EvictPeer(t: Trie, self: Peer, k: Key): Trie
    requires Fits(t, 0)
  {
    if k == self.key then t else Evict(t, 0, k)
  }

  /** `tree_all_peers`: the one side before the zero side. */
  function AllPeers(t: Trie): seq<Peer> {
    match t
    case Leaf(b) => b
    case Joint(z, o) => AllPeers(o) + AllPeers(z)
  }

  function Count(t: Trie): nat {
    match t
    case Leaf(b) => |b|
    case Joint(z, o) => Count(z) + Count(o)
  }

  /** The bucket a key is routed to, and the depth of its leaf. */
  function Route(t: Trie, d: nat, k: Key): seq<Peer>
    requires Fits(t, d)
  {
    match t
    case Leaf(b) => b
    case Joint(_, _) => Route(t.Child(k[d]), d + 1, k)
  }

  function LeafDepth(t: Trie, d: nat, k: Key): (n: nat)
    requires Fits(t, d)
    ensures d <= n < KEYBITS
  {
    match t
    case Leaf(b) => d
    case Joint(_, _) => LeafDepth(t.Child(k[d]), d + 1, k)
  }

  // ---------- The structural invariant ----------

  /** Peers of a leaf at path `p`: capped, routed there, distinct and never self. */
  ghost predicate WfBucket(b: seq<Peer>, p: Bits, self: Key) {
    && |b| <= KBUCKET_MAX
    && DistinctKeys(b)
    && forall i :: 0 <= i < |b| ==> p <= b[i].key && b[i].key != self
  }

  ghost predicate Wf(t: Trie, p: Bits, self: Key) {
    match t
    case Leaf(b) => |p| < KEYBITS && WfBucket(b, p, self)
    case Joint(z, o) => |p| + 1 < KEYBITS && Wf(z, p + [false], self) && Wf(o, p + [true], self)
  }

  /** Every split happens at bit index 4 or more, so no node has an index below 3. */
  ghost predicate Shallow(t: Trie, d: nat) {
    match t
    case Leaf(_) => d + 4 <= KEYBITS
    case Joint(z, o) => d + 5 <= KEYBITS && Shallow(z, d + 1) && Shallow(o, d + 1)
  }

  lemma PrefixStep(p: Bits, k: Key)
    requires p <= k && |p| < KEYBITS
    ensures p + [k[|p|]] <= k
  {
  }

  lemma {:induction false} HalfMembers(b: seq<Peer>, d: nat, bit: bool)
    requires d < KEYBITS
    ensures |Half(b, d, bit)| <= |b|
    ensures forall x :: x in Half(b, d, bit) <==> x in b && x.key[d] == bit
  {
    if b != [] {
      HalfMembers(b[1..], d, bit);
      assert b == [b[0]] + b[1..];
    }
  }

  lemma HalfKeepsWf(b: seq<Peer>, p: Bits, bit: bool, self: Key)
    requires |p| < KEYBITS && WfBucket(b, p, self)
    ensures WfBucket(Half(b, |p|, bit), p + [bit], self)
  {
    HalfDistinct(b, |p|, bit);
    HalfMembers(b, |p|, bit);
    forall x | x in Half(b, |p|, bit) ensures p + [bit] <= x.key && x.key != self {
      PrefixStep(p, x.key);
    }
  }

  lemma {:induction false} HalfDistinct(b: seq<Peer>, d: nat, bit: bool)
    requires d < KEYBITS && DistinctKeys(b)
    ensures DistinctKeys(Half(b, d, bit))
  {
    if b != [] {
      HalfDistinct(b[1..], d, bit);
      HalfMembers(b[1..], d, bit);
      forall x | x in Half(b[1..], d, bit) ensures x.key != b[0].key {
        assert x in b[1..];
      }
    }
  }

  /** Splitting loses nobody. */
  lemma {:induction false} HalvesCount(b: seq<Peer>, d: nat)
    requires d < KEYBITS
    ensures |Half(b, d, false)| + |Half(b, d, true)| == |b|
  {
    if b != [] {
      HalvesCount(b[1..], d);
    }
  }

  /** A full leaf and a new key are 21 keys under one path: at least five bits are left. */
  lemma FullLeafIsShallow(b: seq<Peer>, p: Bits, x: Key)
    requires |p| < KEYBITS && DistinctKeys(b) && |b| == KBUCKET_MAX
    requires forall i :: 0 <= i < |b| ==> p <= b[i].key
    requires p <= x && Find(b, x) == |b|
    ensures |p| + 5 <= KEYBITS
  {
    var s := KeysOf(b) + {x};
    DistinctCount(b);
    assert |s| == 21;
    forall k | k in s ensures p <= k {
    }
    KeysUnderPrefix(s, p);
    assert Pow2(4) == 16;
    if |p| + 5 > KEYBITS {
      Pow2Grows(KEYBITS - |p|, 4);
      assert false;
    }
  }

  lemma {:induction false} DistinctCount(b: seq<Peer>)
    requires DistinctKeys(b)
    ensures |KeysOf(b)| == |b|
  {
    if b != [] {
      DistinctCount(b[1..]);
      assert KeysOf(b) == {b[0].key} + KeysOf(b[1..]);
      assert b[0].key !in KeysOf(b[1..]);
    }
  }

  lemma ErasedAt(b: seq<Peer>, i: nat)
    requires i < |b|
    ensures |Erased(b, i)| == |b| - 1
    ensures forall j :: 0 <= j < |b| - 1 ==> Erased(b, i)[j] == b[if j < i then j else j + 1]
    ensures forall j :: 0 <= j < |b| && j != i ==> b[j] in Erased(b, i)
  {
    var c := Erased(b, i);
    forall j | 0 <= j < |b| && j != i ensures b[j] in c {
      assert b[j] == c[if j < i then j else j - 1];
    }
  }

  lemma ErasedPeers(b: seq<Peer>, k: Key)
    requires DistinctKeys(b) && Find(b, k) < |b|
    ensures var c := Erased(b, Find(b, k));
      && DistinctKeys(c)
      && |c| == |b| - 1
      && forall y :: y in c <==> y in b && y.key != k
  {
    var i := Find(b, k);
    ErasedAt(b, i);
    forall y | y in Erased(b, i) ensures y in b && y.key != k {
      var j :| 0 <= j < |b| - 1 && Erased(b, i)[j] == y;
      assert y == b[if j < i then j else j + 1];
    }
  }

  lemma TouchedPeers(b: seq<Peer>, x: Peer)
    requires DistinctKeys(b) && Find(b, x.key) < |b|
    ensures var c := Touched(b, Find(b, x.key), x);
      && DistinctKeys(c)
      && |c| == |b|
      && forall y :: y in c <==> y == x || (y in b && y.key != x.key)
  {
    ErasedPeers(b, x.key);
    var e := Erased(b, Find(b, x.key));
    forall j | 0 <= j < |e| ensures e[j].key != x.key {
      assert e[j] in e;
    }
  }

  lemma SplitKeepsWf(b: seq<Peer>, p: Bits, self: Key)
    requires |p| + 1 < KEYBITS && WfBucket(b, p, self)
    ensures Wf(Split(b, |p|), p, self)
  {
    HalfKeepsWf(b, p, false, self);
    HalfKeepsWf(b, p, true, self);
  }

  lemma PushKeepsWf(b: seq<Peer>, p: Bits, self: Key, x: Peer)
    requires WfBucket(b, p, self) && p <= x.key && x.key != self
    requires Find(b, x.key) == |b| < KBUCKET_MAX
    ensures WfBucket([x] + b, p, self)
  {
  }

  lemma TouchKeepsWf(b: seq<Peer>, p: Bits, self: Key, x: Peer)
    requires WfBucket(b, p, self) && p <= x.key && x.key != self
    requires Find(b, x.key) < |b|
    ensures WfBucket(Touched(b, Find(b, x.key), x), p, self)
  {
    TouchedPeers(b, x);
    var c := Touched(b, Find(b, x.key), x);
    forall i | 0 <= i < |c| ensures p <= c[i].key && c[i].key != self {
      assert c[i] in c;
    }
  }

  lemma EraseKeepsWf(b: seq<Peer>, p: Bits, self: Key, k: Key)
    requires WfBucket(b, p, self) && Find(b, k) < |b|
    ensures WfBucket(Erased(b, Find(b, k)), p, self)
  {
    ErasedPeers(b, k);
    var c := Erased(b, Find(b, k));
    forall i | 0 <= i < |c| ensures p <= c[i].key && c[i].key != self {
      assert c[i] in c;
    }
  }

  /**
   What a refusal says about the leaf that refused: it is full, the new key is
   not in it, the reported peer is its last one, and at its bit (index 4 or
   more) the key and self disagree.
   */
  ghost predicate RefusedAt(r: InsertResult, d: nat, self: Key, k: Key)
    requires r.Refused? && Fits(r.t, d)
  {
    var n, b := LeafDepth(r.t, d, k), Route(r.t, d, k);
    && n + 5 <= KEYBITS && k[n] != self[n]
    && |b| == KBUCKET_MAX && r.lru == b[KBUCKET_MAX - 1] && Find(b, k) == KBUCKET_MAX
  }

  /**
   Insertion keeps the invariant and the depth bound.  The guard on the bit
   index never decides anything: a refusal always comes from a bit mismatch.
   */
  lemma {:induction false} InsertKeepsWf(t: Trie, p: Bits, self: Key, x: Peer)
    requires Wf(t, p, self) && Shallow(t, |p|) && Fits(t, |p|)
    requires p <= x.key && x.key != self
    ensures var r := Insert(t, |p|, self, x);
      && Wf(r.t, p, self) && Shallow(r.t, |p|) && Fits(r.t, |p|)
      && (r.Refused? ==> RefusedAt(r, |p|, self, x.key))
    decreases KEYBITS - |p|, t.Leaf?
  {
    match t
    case Joint(z, o) =>
      var bit := x.key[|p|];
      PrefixStep(p, x.key);
      InsertKeepsWf(t.Child(bit), p + [bit], self, x);
    case Leaf(b) =>
      var i := Find(b, x.key);
      if i < |b| {
        TouchKeepsWf(b, p, self, x);
      } else if |b| < KBUCKET_MAX {
        PushKeepsWf(b, p, self, x);
      } else {
        FullLeafIsShallow(b, p, x.key);
        if x.key[|p|] == self[|p|] {
          SplitKeepsWf(b, p, self);
          InsertKeepsWf(Split(b, |p|), p, self, x);
        }
      }
  }

  lemma {:induction false} EvictKeepsWf(t: Trie, p: Bits, self: Key, k: Key)
    requires Wf(t, p, self) && Shallow(t, |p|) && Fits(t, |p|)
    ensures var r := Evict(t, |p|, k); Wf(r, p, self) && Shallow(r, |p|) && Fits(r, |p|)
  {
    match t
    case Joint(z, o) => EvictKeepsWf(t.Child(k[|p|]), p + [k[|p|]], self, k);
    case Leaf(b) =>
      if Find(b, k) < |b| {
        EraseKeepsWf(b, p, self, k);
      }
  }

  /** A key that agrees with self on every bit from index 4 up is never refused. */
  lemma NearKeysAreNeverRefused(t: Trie, self: Peer, x: Peer)
    requires Wf(t, [], self.key) && Shallow(t, 0) && Fits(t, 0)
    requires forall i :: 4 <= i < KEYBITS ==> Bit(x.key, i) == Bit(self.key, i)
    ensures AttemptInsert(t, self, x).Inserted?
  {
    if x.key != self.key && x.endpoint != self.endpoint {
      InsertKeepsWf(t, [], self.key, x);
      var r := Insert(t, 0, self.key, x);
      var n := LeafDepth(r.t, 0, x.key);
      assert n + 5 <= KEYBITS ==> Bit(x.key, KEYBITS - 1 - n) == Bit(self.key, KEYBITS - 1 - n);
    }
  }

  // ---------- Refinement of a plain map ----------

  function BucketMap(b: seq<Peer>): (m: map<Key, Bytes>)
    ensures m.Keys == KeysOf(b)
  {
    if b == [] then map[] else BucketMap(b[1..])[b[0].key := b[0].endpoint]
  }

  /** The table as a plain map from keys to endpoints. */
  function AsMap(t: Trie): map<Key, Bytes> {
    match t
    case Leaf(b) => BucketMap(b)
    case Joint(z, o) => AsMap(z) + AsMap(o)
  }

  lemma {:induction false} BucketMapHas(b: seq<Peer>, x: Peer)
    requires DistinctKeys(b) && x in b
    ensures x.key in BucketMap(b) && BucketMap(b)[x.key] == x.endpoint
  {
    if x != b[0] {
      BucketMapHas(b[1..], x);
    }
  }

  /** A map that agrees with every peer of a duplicate-free bucket is that bucket's map. */
  lemma BucketMapIs(b: seq<Peer>, m: map<Key, Bytes>)
    requires DistinctKeys(b) && m.Keys == KeysOf(b)
    requires forall x :: x in b ==> m[x.key] == x.endpoint
    ensures BucketMap(b) == m
  {
    forall k | k in m ensures BucketMap(b)[k] == m[k] {
      var x :| x in b && x.key == k;
      BucketMapHas(b, x);
    }
  }

  lemma TouchedMap(b: seq<Peer>, x: Peer)
    requires DistinctKeys(b) && Find(b, x.key) < |b|
    ensures BucketMap(Touched(b, Find(b, x.key), x)) == BucketMap(b)[x.key := x.endpoint]
  {
    var c := Touched(b, Find(b, x.key), x);
    var m := BucketMap(b)[x.key := x.endpoint];
    TouchedPeers(b, x);
    forall y | y in c ensures m[y.key] == y.endpoint {
      if y != x {
        BucketMapHas(b, y);
      }
    }
    assert KeysOf(c) == m.Keys by {
      assert x in c;
    }
    BucketMapIs(c, m);
  }

  lemma ErasedMap(b: seq<Peer>, k: Key)
    requires DistinctKeys(b) && Find(b, k) < |b|
    ensures BucketMap(Erased(b, Find(b, k))) == BucketMap(b) - {k}
  {
    var c := Erased(b, Find(b, k));
    ErasedPeers(b, k);
    forall y | y in c ensures y.key in BucketMap(b) - {k} && (BucketMap(b) - {k})[y.key] == y.endpoint {
      BucketMapHas(b, y);
    }
    BucketMapIs(c, BucketMap(b) - {k});
  }

  lemma SplitMap(b: seq<Peer>, p: Bits, self: Key)
    requires |p| < KEYBITS && WfBucket(b, p, self)
    ensures AsMap(Split(b, |p|)) == BucketMap(b)
  {
    var z, o := Half(b, |p|, false), Half(b, |p|, true);
    HalfDistinct(b, |p|, false);
    HalfDistinct(b, |p|, true);
    HalfMembers(b, |p|, false);
    HalfMembers(b, |p|, true);
    var m := BucketMap(z) + BucketMap(o);
    forall x | x in b ensures x.key in m && m[x.key] == x.endpoint {
      if x.key[|p|] {
        BucketMapHas(o, x);
      } else {
        BucketMapHas(z, x);
        assert x.key !in KeysOf(o);
      }
    }
    BucketMapIs(b, m);
  }

  lemma {:induction false} KeysUnderPath(t: Trie, p: Bits, self: Key, k: Key)
    requires Wf(t, p, self) && k in AsMap(t)
    ensures p <= k && k != self
  {
    match t
    case Leaf(b) =>
    case Joint(z, o) =>
      if k in AsMap(o) {
        KeysUnderPath(o, p + [true], self, k);
      } else {
        KeysUnderPath(z, p + [false], self, k);
      }
  }

  /** The table key `k` is only ever on the side of a joint it is routed to. */
  lemma NotInSibling(t: Trie, p: Bits, self: Key, k: Key)
    requires t.Joint? && Wf(t, p, self) && p <= k
    ensures k !in AsMap(t.Child(!k[|p|]))
  {
    var bit := !k[|p|];
    assert (p + [bit])[|p|] == bit;
    if k in AsMap(t.Child(bit)) {
      KeysUnderPath(t.Child(bit), p + [bit], self, k);
    }
  }

  lemma UpdateInUnion(m: map<Key, Bytes>, n: map<Key, Bytes>, k: Key, e: Bytes)
    ensures m + n[k := e] == (m + n)[k := e]
    ensures k !in n ==> m[k := e] + n == (m + n)[k := e]
  {
  }

  lemma RemoveInUnion(m: map<Key, Bytes>, n: map<Key, Bytes>, k: Key)
    ensures k !in m ==> m + (n - {k}) == (m + n) - {k}
    ensures k !in n ==> (m - {k}) + n == (m + n) - {k}
  {
  }

  /** Inserting is a map update, and a refusal changes no entry although leaves may have split. */
  lemma {:induction false} InsertMap(t: Trie, p: Bits, self: Key, x: Peer)
    requires Wf(t, p, self) && Fits(t, |p|) && p <= x.key
    ensures var r := Insert(t, |p|, self, x);
      AsMap(r.t) == if r.Inserted? then AsMap(t)[x.key := x.endpoint] else AsMap(t)
    decreases KEYBITS - |p|, t.Leaf?
  {
    match t
    case Joint(z, o) =>
      var bit := x.key[|p|];
      PrefixStep(p, x.key);
      NotInSibling(t, p, self, x.key);
      InsertMap(t.Child(bit), p + [bit], self, x);
      UpdateInUnion(AsMap(z), AsMap(o), x.key, x.endpoint);
    case Leaf(b) =>
      if Find(b, x.key) < |b| {
        TouchedMap(b, x);
      } else if |b| < KBUCKET_MAX {
        assert ([x] + b)[1..] == b;
      } else if x.key[|p|] == self[|p|] && KEYBITS - 1 - |p| > 0 {
        SplitKeepsWf(b, p, self);
        SplitMap(b, p, self);
        InsertMap(Split(b, |p|), p, self, x);
      }
  }

  /** Evicting is exactly key removal. */
  lemma {:induction false} EvictMap(t: Trie, p: Bits, self: Key, k: Key)
    requires Wf(t, p, self) && Fits(t, |p|) && p <= k
    ensures AsMap(Evict(t, |p|, k)) == AsMap(t) - {k}
  {
    match t
    case Joint(z, o) =>
      var bit := k[|p|];
      PrefixStep(p, k);
      NotInSibling(t, p, self, k);
      EvictMap(t.Child(bit), p + [bit], self, k);
      RemoveInUnion(AsMap(z), AsMap(o), k);
    case Leaf(b) =>
      if Find(b, k) < |b| {
        ErasedMap(b, k);
      } else {
        assert k !in KeysOf(b);
      }
  }
}
