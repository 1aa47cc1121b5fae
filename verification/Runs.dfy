/**
 Whole histories of the routing table: every run of inserts, evictions and peer
 updates keeps the trie invariant, refines a plain map, and keeps each bucket in
 recency order.
 */
module Runs {
  import opened Keys
  import opened Tries
  import opened Queries

  // ---------- One step ----------

  /** Nobody in the trie has this endpoint. */
  ghost predicate Elsewhere(t: Trie, endpoint: Bytes) {
    forall y :: Holds(t, y) ==> y.endpoint != endpoint
  }

  ghost predicate Sound(t: Trie, self: Peer) {
    Fits(t, 0) && Wf(t, [], self.key) && Shallow(t, 0) && Elsewhere(t, self.endpoint)
  }

  /** An insertion adds nobody but the new peer. */
  lemma {:induction false} InsertHolds(t: Trie, d: nat, self: Key, x: Peer, y: Peer)
    requires Fits(t, d) && Holds(Insert(t, d, self, x).t, y)
    ensures Holds(t, y) || y == x
    decreases KEYBITS - d, t.Leaf?
  {
    match t
    case Joint(_, _) =>
      var bit := x.key[d];
      if Holds(Insert(t.Child(bit), d + 1, self, x).t, y) {
        InsertHolds(t.Child(bit), d + 1, self, x, y);
      }
    case Leaf(b) =>
      if Find(b, x.key) == |b| && |b| >= KBUCKET_MAX && x.key[d] == self[d] && KEYBITS - 1 - d > 0 {
        InsertHolds(Split(b, d), d, self, x, y);
        HalfMembers(b, d, false);
        HalfMembers(b, d, true);
      }
  }

  /** An eviction adds nobody. */
  lemma {:induction false} EvictHolds(t: Trie, d: nat, k: Key, y: Peer)
    requires Fits(t, d) && Holds(Evict(t, d, k), y)
    ensures Holds(t, y)
  {
    if t.Joint? && Holds(Evict(t.Child(k[d]), d + 1, k), y) {
      EvictHolds(t.Child(k[d]), d + 1, k, y);
    }
  }

  lemma AttemptInsertSound(t: Trie, self: Peer, x: Peer)
    requires Sound(t, self)
    ensures Sound(AttemptInsert(t, self, x).t, self)
  {
    if x.key != self.key && x.endpoint != self.endpoint {
      InsertKeepsWf(t, [], self.key, x);
      forall y | Holds(Insert(t, 0, self.key, x).t, y) ensures y.endpoint != self.endpoint {
        InsertHolds(t, 0, self.key, x, y);
      }
    }
  }

  lemma EvictPeerSound(t: Trie, self: Peer, k: Key)
    requires Sound(t, self)
    ensures Sound(EvictPeer(t, self, k), self)
  {
    EvictKeepsWf(t, [], self.key, k);
    forall y | Holds(Evict(t, 0, k), y) ensures y.endpoint != self.endpoint {
      EvictHolds(t, 0, k, y);
    }
  }

  /** Acceptance is a map update, the own key and endpoint change nothing, a refusal changes no entry. */
  lemma AttemptInsertRefinesMap(t: Trie, self: Peer, x: Peer)
    requires Sound(t, self)
    ensures var r := AttemptInsert(t, self, x);
      AsMap(r.t) ==
        if x.key == self.key || x.endpoint == self.endpoint || r.Refused? then AsMap(t)
        else AsMap(t)[x.key := x.endpoint]
  {
    InsertMap(t, [], self.key, x);
  }

  lemma EvictPeerRefinesMap(t: Trie, self: Peer, k: Key)
    requires Sound(t, self)
    ensures AsMap(EvictPeer(t, self, k)) == AsMap(t) - {k}
  {
    EvictMap(t, [], self.key, k);
    if self.key in AsMap(t) {
      KeysUnderPath(t, [], self.key, self.key);
    }
  }

  // ---------- Updating a peer ----------

  /**
   `update_peer`: try to insert; if a full bucket refuses, ping its least recently
   used peer, and if that does not answer with its own key, evict it, count a dead
   peer and try again.  `answer` is what the ping would return.
   */
  function UpdatePeer(t: Trie, self: Peer, x: Peer, answer: Option<Peer>): (Trie, nat)
    requires Fits(t, 0)
    requires Fits(AttemptInsert(t, self, x).t, 0)
    requires AttemptInsert(t, self, x).Refused? ==>
      Fits(EvictPeer(AttemptInsert(t, self, x).t, self, AttemptInsert(t, self, x).lru.key), 0)
  {
    match AttemptInsert(t, self, x)
    case Inserted(u) => (u, 0)
    case Refused(u, lru) =>
      if answer.Some? && answer.value.key == lru.key then (u, 0)
      else (AttemptInsert(EvictPeer(u, self, lru.key), self, x).t, 1)
  }

  lemma {:induction false} RoomMeansInserted(t: Trie, d: nat, self: Key, x: Peer)
    requires Fits(t, d) && |Route(t, d, x.key)| < KBUCKET_MAX
    ensures Insert(t, d, self, x).Inserted?
    decreases t
  {
    if t.Joint? {
      RoomMeansInserted(t.Child(x.key[d]), d + 1, self, x);
    }
  }

  /** A peer in the bucket of `k` is evicted from that very bucket. */
  lemma {:induction false} EvictFromRoute(t: Trie, p: Bits, self: Key, k: Key, y: Peer)
    requires Wf(t, p, self) && Fits(t, |p|) && p <= k && y in Route(t, |p|, k)
    ensures Fits(Evict(t, |p|, y.key), |p|)
    ensures var b := Route(t, |p|, k);
      Find(b, y.key) < |b| && Route(Evict(t, |p|, y.key), |p|, k) == Erased(b, Find(b, y.key))
  {
    if t.Joint? {
      var bit := k[|p|];
      RouteIsStored(t.Child(bit), |p| + 1, k, y);
      SideBit(t, p, self, bit, y);
      PrefixStep(p, k);
      EvictFromRoute(t.Child(bit), p + [bit], self, k, y);
    }
  }

  /** Evicting the peer a refusal reports makes room in exactly the leaf of the refused key. */
  lemma SecondAttemptInserts(t: Trie, self: Peer, x: Peer)
    requires Sound(t, self) && AttemptInsert(t, self, x).Refused?
    ensures var r := AttemptInsert(t, self, x);
      && Sound(r.t, self) && Sound(EvictPeer(r.t, self, r.lru.key), self)
      && r.lru in Route(r.t, 0, x.key) && r.lru.key != self.key && r.lru.key != x.key
      && AttemptInsert(EvictPeer(r.t, self, r.lru.key), self, x).Inserted?
  {
    var r := AttemptInsert(t, self, x);
    AttemptInsertSound(t, self, x);
    InsertKeepsWf(t, [], self.key, x);
    assert RefusedAt(r, 0, self.key, x.key);
    var b := Route(r.t, 0, x.key);
    RouteIsStored(r.t, 0, x.key, r.lru);
    PeerUnderPath(r.t, [], self.key, r.lru);
    EvictFromRoute(r.t, [], self.key, x.key, r.lru);
    ErasedAt(b, Find(b, r.lru.key));
    EvictPeerSound(r.t, self, r.lru.key);
    RoomMeansInserted(Evict(r.t, 0, r.lru.key), 0, self.key, x);
  }

  lemma UpdatePeerDefined(t: Trie, self: Peer, x: Peer)
    requires Sound(t, self)
    ensures Sound(AttemptInsert(t, self, x).t, self)
    ensures AttemptInsert(t, self, x).Refused? ==>
      Sound(EvictPeer(AttemptInsert(t, self, x).t, self, AttemptInsert(t, self, x).lru.key), self)
  {
    AttemptInsertSound(t, self, x);
    if AttemptInsert(t, self, x).Refused? {
      SecondAttemptInserts(t, self, x);
    }
  }

  /**
   The outcome of `update_peer` as a change of the plain map.  A peer is dropped
   only if it is the least recently used one of the full bucket and did not answer
   with its own key; otherwise a full bucket keeps everybody.
   */
  lemma UpdatePeerRefinesMap(t: Trie, self: Peer, x: Peer, answer: Option<Peer>)
    requires Sound(t, self)
    ensures Fits(AttemptInsert(t, self, x).t, 0)
    ensures AttemptInsert(t, self, x).Refused? ==>
      Fits(EvictPeer(AttemptInsert(t, self, x).t, self, AttemptInsert(t, self, x).lru.key), 0)
    ensures var (u, dead) := UpdatePeer(t, self, x, answer);
      var r := AttemptInsert(t, self, x);
      && Sound(u, self)
      && dead == (if r.Refused? && !(answer.Some? && answer.value.key == r.lru.key) then 1 else 0)
      && AsMap(u) ==
           if x.key == self.key || x.endpoint == self.endpoint then AsMap(t)
           else if r.Inserted? then AsMap(t)[x.key := x.endpoint]
           else if dead == 0 then AsMap(t)
           else (AsMap(t) - {r.lru.key})[x.key := x.endpoint]
  {
    UpdatePeerDefined(t, self, x);
    var r := AttemptInsert(t, self, x);
    AttemptInsertRefinesMap(t, self, x);
    if r.Refused? {
      SecondAttemptInserts(t, self, x);
      var v := EvictPeer(r.t, self, r.lru.key);
      EvictPeerRefinesMap(r.t, self, r.lru.key);
      AttemptInsertRefinesMap(v, self, x);
      AttemptInsertSound(v, self, x);
    }
  }

  /** Evicting twice is evicting once. */
  lemma {:induction false} EvictAgain(t: Trie, p: Bits, self: Key, k: Key)
    requires Wf(t, p, self) && Fits(t, |p|)
    ensures Fits(Evict(t, |p|, k), |p|)
    ensures Evict(Evict(t, |p|, k), |p|, k) == Evict(t, |p|, k)
  {
    match t
    case Joint(z, o) => EvictAgain(t.Child(k[|p|]), p + [k[|p|]], self, k);
    case Leaf(b) =>
      if Find(b, k) < |b| {
        ErasedPeers(b, k);
        var c := Erased(b, Find(b, k));
        assert forall i :: 0 <= i < |c| ==> c[i] in c;
      }
  }

  /** The eviction after a ping that already evicted the peer changes nothing. */
  lemma PingThenEvict(t: Trie, self: Peer, k: Key)
    requires Sound(t, self)
    ensures Sound(EvictPeer(t, self, k), self)
    ensures EvictPeer(EvictPeer(t, self, k), self, k) == EvictPeer(t, self, k)
  {
    EvictPeerSound(t, self, k);
    EvictAgain(t, [], self.key, k);
  }

  // ---------- Recency ----------

  /** Most recently touched first. */
  ghost predicate NewestFirst(b: seq<Peer>, time: map<Key, nat>) {
    b == [] || (
      && b[0].key in time
      && NewestFirst(b[1..], time)
      && forall y :: y in b[1..] ==> y.key in time && time[y.key] < time[b[0].key])
  }

  ghost predicate InOrder(t: Trie, time: map<Key, nat>) {
    match t
    case Leaf(b) => NewestFirst(b, time)
    case Joint(z, o) => InOrder(z, time) && InOrder(o, time)
  }

  lemma {:induction false} HalfInOrder(b: seq<Peer>, d: nat, bit: bool, time: map<Key, nat>)
    requires d < KEYBITS && NewestFirst(b, time)
    ensures NewestFirst(Half(b, d, bit), time)
  {
    if b != [] {
      HalfInOrder(b[1..], d, bit, time);
      HalfMembers(b[1..], d, bit);
      if b[0].key[d] == bit {
        assert Half(b, d, bit)[1..] == Half(b[1..], d, bit);
      } else {
        assert Half(b, d, bit) == Half(b[1..], d, bit);
      }
    }
  }

  lemma {:induction false} ErasedInOrder(b: seq<Peer>, i: nat, time: map<Key, nat>)
    requires i < |b| && NewestFirst(b, time)
    ensures NewestFirst(Erased(b, i), time)
  {
    if i == 0 {
      assert Erased(b, 0) == b[1..];
    } else {
      ErasedInOrder(b[1..], i - 1, time);
      assert Erased(b, i) == [b[0]] + Erased(b[1..], i - 1);
      forall y | y in Erased(b[1..], i - 1) ensures y in b[1..] {
      }
    }
  }

  /** A later time for a key that is not in the bucket does not disturb its order. */
  lemma {:induction false} OtherKeyInOrder(b: seq<Peer>, time: map<Key, nat>, k: Key, now: nat)
    requires NewestFirst(b, time) && forall y :: y in b ==> y.key != k
    ensures NewestFirst(b, time[k := now])
  {
    if b != [] {
      OtherKeyInOrder(b[1..], time, k, now);
    }
  }

  lemma {:induction false} OtherKeyInTrie(t: Trie, time: map<Key, nat>, k: Key, now: nat)
    requires InOrder(t, time) && k !in AsMap(t)
    ensures InOrder(t, time[k := now])
  {
    match t
    case Leaf(b) => OtherKeyInOrder(b, time, k, now);
    case Joint(z, o) =>
      OtherKeyInTrie(z, time, k, now);
      OtherKeyInTrie(o, time, k, now);
  }

  /** A freshly touched peer in front of an ordered bucket. */
  lemma {:induction false} FrontInOrder(b: seq<Peer>, time: map<Key, nat>, x: Peer, now: nat)
    requires NewestFirst(b, time) && forall y :: y in b ==> y.key != x.key
    requires forall k :: k in time ==> time[k] < now
    ensures NewestFirst([x] + b, time[x.key := now])
  {
    OtherKeyInOrder(b, time, x.key, now);
    assert ([x] + b)[1..] == b;
    forall y | y in b ensures y.key in time {
      InOrderHasTime(b, time, y);
    }
  }

  lemma {:induction false} InOrderHasTime(b: seq<Peer>, time: map<Key, nat>, y: Peer)
    requires NewestFirst(b, time) && y in b
    ensures y.key in time
  {
    if y != b[0] {
      InOrderHasTime(b[1..], time, y);
    }
  }

  /** Touch-rotate, push-front and split all keep recency order; a refusal changes no time. */
  lemma {:induction false} InsertInOrder(t: Trie, p: Bits, self: Key, x: Peer, time: map<Key, nat>, now: nat)
    requires Wf(t, p, self) && Fits(t, |p|) && p <= x.key
    requires InOrder(t, time) && forall k :: k in time ==> time[k] < now
    ensures var r := Insert(t, |p|, self, x);
      InOrder(r.t, if r.Inserted? then time[x.key := now] else time)
    decreases KEYBITS - |p|, t.Leaf?
  {
    match t
    case Joint(z, o) =>
      var bit := x.key[|p|];
      PrefixStep(p, x.key);
      InsertInOrder(t.Child(bit), p + [bit], self, x, time, now);
      NotInSibling(t, p, self, x.key);
      OtherKeyInTrie(t.Child(!bit), time, x.key, now);
    case Leaf(b) =>
      var i := Find(b, x.key);
      if i < |b| {
        ErasedPeers(b, x.key);
        ErasedInOrder(b, i, time);
        FrontInOrder(Erased(b, i), time, x, now);
      } else if |b| < KBUCKET_MAX {
        FrontInOrder(b, time, x, now);
      } else if x.key[|p|] == self[|p|] && KEYBITS - 1 - |p| > 0 {
        HalfInOrder(b, |p|, false, time);
        HalfInOrder(b, |p|, true, time);
        SplitKeepsWf(b, p, self);
        InsertInOrder(Split(b, |p|), p, self, x, time, now);
      }
  }

  lemma {:induction false} EvictInOrder(t: Trie, d: nat, k: Key, time: map<Key, nat>)
    requires Fits(t, d) && InOrder(t, time)
    ensures InOrder(Evict(t, d, k), time)
  {
    match t
    case Joint(z, o) => EvictInOrder(t.Child(k[d]), d + 1, k, time);
    case Leaf(b) =>
      if Find(b, k) < |b| {
        ErasedInOrder(b, Find(b, k), time);
      }
  }

  /** The last peer of an ordered bucket is its least recently touched. */
  lemma {:induction false} LastIsOldest(b: seq<Peer>, time: map<Key, nat>, y: Peer)
    requires NewestFirst(b, time) && y in b
    ensures b[|b| - 1].key in time && y.key in time && time[b[|b| - 1].key] <= time[y.key]
  {
    if |b| > 1 {
      if y == b[0] {
        LastIsOldest(b[1..], time, b[|b| - 1]);
        assert b[|b| - 1] in b[1..];
      } else {
        LastIsOldest(b[1..], time, y);
      }
    }
  }

  lemma {:induction false} RouteInOrder(t: Trie, d: nat, k: Key, time: map<Key, nat>)
    requires Fits(t, d) && InOrder(t, time)
    ensures NewestFirst(Route(t, d, k), time)
  {
    if t.Joint? {
      RouteInOrder(t.Child(k[d]), d + 1, k, time);
    }
  }

  // ---------- Whole runs ----------

  datatype Op = Seen(peer: Peer) | Drop(key: Key)

  /** A table, when each key was last accepted, and the next time stamp. */
  datatype History = History(t: Trie, time: map<Key, nat>, now: nat)

  ghost predicate Good(h: History, self: Peer) {
    && Sound(h.t, self)
    && InOrder(h.t, h.time)
    && forall k :: k in h.time ==> h.time[k] < h.now
  }

  function Next(h: History, self: Peer, op: Op): History
    requires Fits(h.t, 0)
  {
    match op
    case Seen(x) =>
      var r := AttemptInsert(h.t, self, x);
      var touched := r.Inserted? && x.key != self.key && x.endpoint != self.endpoint;
      History(r.t, if touched then h.time[x.key := h.now] else h.time, h.now + 1)
    case Drop(k) => History(EvictPeer(h.t, self, k), h.time, h.now + 1)
  }

  lemma NextIsGood(h: History, self: Peer, op: Op)
    requires Good(h, self)
    ensures Good(Next(h, self, op), self)
  {
    match op
    case Seen(x) =>
      AttemptInsertSound(h.t, self, x);
      if x.key != self.key {
        InsertInOrder(h.t, [], self.key, x, h.time, h.now);
      }
    case Drop(k) =>
      EvictPeerSound(h.t, self, k);
      EvictInOrder(h.t, 0, k, h.time);
  }

  /** Every run from a good table keeps the trie invariant, the depth bound and recency order. */
  ghost function Run(self: Peer, h: History, ops: seq<Op>): (end: History)
    requires Good(h, self)
    ensures Good(end, self)
    decreases |ops|
  {
    if ops == [] then h
    else
      NextIsGood(h, self, ops[0]);
      Run(self, Next(h, self, ops[0]), ops[1..])
  }

  function NewTable(): History {
    History(Leaf([]), map[], 0)
  }

  lemma NewTableIsGood(self: Peer)
    ensures Good(NewTable(), self)
  {
  }

  /** A peer update is a history of one to three operations, so its runs are among these. */
  lemma UpdateIsHistory(h: History, self: Peer, x: Peer, answer: Option<Peer>) returns (ops: seq<Op>)
    requires Good(h, self)
    ensures Fits(h.t, 0) && Fits(AttemptInsert(h.t, self, x).t, 0)
    ensures AttemptInsert(h.t, self, x).Refused? ==>
      Fits(EvictPeer(AttemptInsert(h.t, self, x).t, self, AttemptInsert(h.t, self, x).lru.key), 0)
    ensures Run(self, h, ops).t == UpdatePeer(h.t, self, x, answer).0
    ensures 1 <= |ops| <= 3
  {
    hide InOrder, Wf, Shallow, Elsewhere, Fits, AttemptInsert, EvictPeer, AsMap;
    UpdatePeerRefinesMap(h.t, self, x, answer);
    var r := AttemptInsert(h.t, self, x);
    var h1 := Next(h, self, Seen(x));
    NextIsGood(h, self, Seen(x));
    ops := [Seen(x)];
    assert Run(self, h1, []) == h1 && ops[1..] == [];
    if r.Refused? && !(answer.Some? && answer.value.key == r.lru.key) {
      var h2 := Next(h1, self, Drop(r.lru.key));
      NextIsGood(h1, self, Drop(r.lru.key));
      NextIsGood(h2, self, Seen(x));
      var h3 := Next(h2, self, Seen(x));
      ops := [Seen(x), Drop(r.lru.key), Seen(x)];
      assert ops[1..] == [Drop(r.lru.key), Seen(x)] && ops[1..][1..] == [Seen(x)] && [Seen(x)][1..] == [];
      assert Run(self, h3, []) == h3;
      assert Run(self, h2, [Seen(x)]) == h3;
      assert Run(self, h1, ops[1..]) == h3;
    }
  }

  /** On refusal, the reported peer is the least recently touched one of the bucket of the key. */
  lemma RefusalReportsTheOldest(h: History, self: Peer, x: Peer, y: Peer)
    requires Good(h, self) && AttemptInsert(h.t, self, x).Refused?
    ensures var r := AttemptInsert(h.t, self, x);
      && Fits(r.t, 0)
      && |Route(r.t, 0, x.key)| == KBUCKET_MAX
      && r.lru in Route(r.t, 0, x.key)
      && (y in Route(r.t, 0, x.key) ==>
            r.lru.key in h.time && y.key in h.time && h.time[r.lru.key] <= h.time[y.key])
  {
    var r := AttemptInsert(h.t, self, x);
    InsertKeepsWf(h.t, [], self.key, x);
    assert RefusedAt(r, 0, self.key, x.key);
    NextIsGood(h, self, Seen(x));
    RouteInOrder(r.t, 0, x.key, h.time);
    if y in Route(r.t, 0, x.key) {
      LastIsOldest(Route(r.t, 0, x.key), h.time, y);
    }
  }
}
