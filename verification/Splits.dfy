/**
 Which leaves of a routing table split (src/dht/router.cpp:62-68).  The comment
 there lets a leaf split if its prefix matches self's, which would keep every joint
 on self's path.  The code compares the one bit at the leaf's depth.
 */
module Splits {
  import opened Keys
  import opened Tries
  import opened Runs

  /** Every joint of the tree at path `p` is on self's path. */
  ghost predicate OnOwnPath(t: Trie, p: Bits, self: Key) {
    match t
    case Leaf(_) => true
    case Joint(z, o) => p <= self && OnOwnPath(z, p + [false], self) && OnOwnPath(o, p + [true], self)
  }

  /** The leaf of `x` is off self's path, full, lacks `x`, and `x` and self agree at its bit. */
  ghost predicate SplitsElsewhere(t: Trie, d: nat, self: Key, x: Key)
    requires Fits(t, d)
  {
    var n, b := LeafDepth(t, d, x), Route(t, d, x);
    && !(x[..n] <= self)
    && |b| == KBUCKET_MAX && Find(b, x) == |b|
    && x[n] == self[n]
  }

  /** An insertion leaves every joint on self's path exactly if they were there and no leaf off it splits. */
  lemma {:induction false} InsertStaysOnPathExactly(t: Trie, p: Bits, self: Key, x: Peer)
    requires Wf(t, p, self) && Fits(t, |p|) && p <= x.key && x.key != self
    ensures OnOwnPath(Insert(t, |p|, self, x).t, p, self) <==>
            OnOwnPath(t, p, self) && !SplitsElsewhere(t, |p|, self, x.key)
    decreases KEYBITS - |p|, t.Leaf?
  {
    var d := |p|;
    assert x.key[..d] == p;
    match t
    case Joint(z, o) =>
      var bit := x.key[d];
      PrefixStep(p, x.key);
      InsertStaysOnPathExactly(t.Child(bit), p + [bit], self, x);
    case Leaf(b) =>
      if Find(b, x.key) == |b| && |b| == KBUCKET_MAX {
        FullLeafIsShallow(b, p, x.key);
        if x.key[d] == self[d] {
          SplitKeepsWf(b, p, self);
          InsertStaysOnPathExactly(Split(b, d), p, self, x);
          SplitOnPath(b, p, self, x.key);
        }
      }
  }

  /** If the leaf at `p` is on self's path, so is the half of it that `k` goes to when `k` and self agree there. */
  lemma SplitOnPath(b: seq<Peer>, p: Bits, self: Key, k: Key)
    requires |p| + 1 < KEYBITS && p <= k && k[|p|] == self[|p|]
    ensures Fits(Split(b, |p|), |p|)
    ensures OnOwnPath(Split(b, |p|), p, self) <==> p <= self
    ensures p <= self ==> !SplitsElsewhere(Split(b, |p|), |p|, self, k)
  {
    var t := Split(b, |p|);
    assert Fits(t.zero, |p| + 1) && Fits(t.one, |p| + 1) && Fits(t, |p|);
    assert LeafDepth(t, |p|, k) == LeafDepth(t.Child(k[|p|]), |p| + 1, k) == |p| + 1;
    if p <= self {
      assert k[..|p| + 1] == p + [k[|p|]] == self[..|p| + 1];
    }
  }

  /** Eviction never merges leaves. */
  lemma {:induction false} EvictKeepsPaths(t: Trie, p: Bits, self: Key, k: Key)
    requires Fits(t, |p|)
    ensures OnOwnPath(Evict(t, |p|, k), p, self) <==> OnOwnPath(t, p, self)
  {
    if t.Joint? {
      EvictKeepsPaths(t.Child(k[|p|]), p + [k[|p|]], self, k);
    }
  }

  /** The step splits a leaf off self's path. */
  ghost predicate StepsElsewhere(h: History, self: Peer, op: Op)
    requires Fits(h.t, 0)
  {
    && op.Seen? && op.peer.key != self.key && op.peer.endpoint != self.endpoint
    && SplitsElsewhere(h.t, 0, self.key, op.peer.key)
  }

  lemma NextStaysOnPathExactly(h: History, self: Peer, op: Op)
    requires Good(h, self)
    ensures OnOwnPath(Next(h, self, op).t, [], self.key) <==>
            OnOwnPath(h.t, [], self.key) && !StepsElsewhere(h, self, op)
  {
    match op
    case Seen(x) =>
      if x.key != self.key {
        InsertStaysOnPathExactly(h.t, [], self.key, x);
      }
    case Drop(k) => EvictKeepsPaths(h.t, [], self.key, k);
  }

  /** No step of the history splits a leaf off self's path. */
  ghost predicate NeverElsewhere(h: History, self: Peer, ops: seq<Op>)
    requires Good(h, self)
    decreases |ops|
  {
    ops == [] || (
      NextIsGood(h, self, ops[0]);
      !StepsElsewhere(h, self, ops[0]) && NeverElsewhere(Next(h, self, ops[0]), self, ops[1..]))
  }

  /** Over a whole history the joints stay on self's path exactly if no step splits a leaf off it. */
  lemma {:induction false} RunStaysOnPathExactly(h: History, self: Peer, ops: seq<Op>)
    requires Good(h, self)
    ensures OnOwnPath(Run(self, h, ops).t, [], self.key) <==>
            OnOwnPath(h.t, [], self.key) && NeverElsewhere(h, self, ops)
    decreases |ops|
  {
    if ops != [] {
      hide OnOwnPath, StepsElsewhere, Good, Next;
      NextIsGood(h, self, ops[0]);
      NextStaysOnPathExactly(h, self, ops[0]);
      RunStaysOnPathExactly(Next(h, self, ops[0]), self, ops[1..]);
    }
  }
}
