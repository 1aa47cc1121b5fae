/**
 What a node's table answers for the search of a lookup (src/dht/rpc.cpp:150-158,
 190-199): when the answer leads towards the node nearest to the search key.
 */
module Tables {
  import opened Keys
  import opened Tries
  import opened Queries
  import opened Runs
  import opened Lookups
  import opened LookupFacts
  import opened Convergence

  /** The table of `x` has a node of every subtree that another node is in. */
  ghost predicate CompleteTable(t: Trie, x: Key, nodes: set<Peer>) {
    && (forall y :: Holds(t, y) ==> y in nodes)
    && forall z :: z in nodes && z.key != x ==> exists y :: Holds(t, y) && Agree(y.key, z.key) > Agree(x, z.key)
  }

  /**
   From a complete table, the documented query for a bucketful leads towards the
   closest node; the query as written does so whenever the leaf of the search key
   is not empty.
   */
  lemma QueryLeads(t: Trie, x: Peer, k: Key, nodes: set<Peer>, g: Peer)
    requires Fits(t, 0) && Wf(t, [], x.key) && CompleteTable(t, x.key, nodes) && IsNearestNode(g, k, nodes)
    ensures Towards(x.key, g.key, Nearest(t, 0, k, KBUCKET_MAX))
    ensures Route(t, 0, k) != [] ==> Towards(x.key, g.key, Closest(t, 0, k, KBUCKET_MAX))
  {
    hide Closest, Nearest, Answers, Wf, Fits;
    if x.key != g.key {
      var y :| Holds(t, y) && Agree(y.key, g.key) > Agree(x.key, g.key);
      var m := ClosestStored(t, k, y);
      assert m in nodes;
      Sandwich(k, g.key, m.key, y.key);
      NearestHasTheClosest(t, [], x.key, k, KBUCKET_MAX, m);
      if Route(t, 0, k) != [] {
        var r := Route(t, 0, k)[0];
        RouteIsStored(t, 0, k, r);
        RouteIsNearest(t, [], x.key, k, r, m);
        assert m in Route(t, 0, k);
        RouteIsAnswered(t, [], x.key, k, KBUCKET_MAX, m);
        AnswersIsClosest(t, 0, k, KBUCKET_MAX, m);
      }
    }
  }

  lemma ClosestStored(t: Trie, k: Key, y: Peer) returns (m: Peer)
    requires Holds(t, y)
    ensures IsClosest(t, k, m)
    decreases Dist(k, y.key)
  {
    if z :| Holds(t, z) && Dist(k, z.key) < Dist(k, y.key) {
      m := ClosestStored(t, k, z);
    } else {
      m := y;
    }
  }

  lemma {:induction false} RouteIsAnswered(t: Trie, p: Bits, self: Key, k: Key, n: nat, m: Peer)
    requires Wf(t, p, self) && Fits(t, |p|) && n >= KBUCKET_MAX && m in Route(t, |p|, k)
    ensures Answers(t, |p|, k, n, m)
  {
    if t.Joint? {
      RouteIsAnswered(t.Child(k[|p|]), p + [k[|p|]], self, k, n, m);
    }
  }

  // ---------- Never self ----------

  /** A sound table never answers with its owner, by key or by endpoint. */
  lemma AnswersNotSelf(t: Trie, self: Peer, k: Key, n: nat)
    requires Sound(t, self)
    ensures NotSelf(self, Closest(t, 0, k, n)) && NotSelf(self, Nearest(t, 0, k, n))
  {
    hide Closest, Nearest, Wf, Fits;
    ClosestIsHeld(t, 0, k, n);
    NearestIsHeld(t, 0, k, n);
    forall y | Holds(t, y) ensures y.key != self.key && y.endpoint != self.endpoint {
      PeerUnderPath(t, [], self.key, y);
    }
  }

  /** So, in every table a history leads to, no lookup offers self and no node lookup returns it. */
  lemma LookupsNeverOfferSelf(t: Trie, self: Peer, k: Key, net: Net, again: Net)
    requires Sound(t, self)
    ensures var local := Closest(t, 0, k, KBUCKET_MAX);
      var o, r := Lookup(self, k, net, [], local), NodeLookup(self, k, net, again, local);
      (o.Settled? ==> NotSelf(self, o.list)) && (r.Some? ==> NotSelf(self, r.value))
  {
    hide Lookup, NodeLookup, Closest, NotSelf, Wf, Shallow, Elsewhere, Fits;
    AnswersNotSelf(t, self, k, KBUCKET_MAX);
    var local := Closest(t, 0, k, KBUCKET_MAX);
    assert [] + local == local;
    LookupDropsSelf(self, k, net, [], local);
    NodeLookupDropsSelf(self, k, net, again, local);
  }

  // ---------- The query as written, exactly ----------

  /** On the way to the search key's leaf, at depth `e` or deeper, the guard fires and the other side answers. */
  predicate SpillsBelow(t: Trie, d: nat, k: Key, n: nat, e: nat)
    requires Fits(t, d)
  {
    t.Joint? &&
    var preferred, alternate := t.Child(k[d]), t.Child(!k[d]);
    || SpillsBelow(preferred, d + 1, k, n, e)
    || (d >= e && n < Count(preferred) && !Quiet(alternate, d + 1, k, Count(preferred) - n))
  }

  lemma {:induction false} SpillsBelowIsSpill(t: Trie, d: nat, k: Key, n: nat, e: nat)
    requires Fits(t, d) && SpillsBelow(t, d, k, n, e)
    ensures Spills(t, d, k, n)
  {
    if SpillsBelow(t.Child(k[d]), d + 1, k, n, e) {
      SpillsBelowIsSpill(t.Child(k[d]), d + 1, k, n, e);
    }
  }

  lemma {:induction false} SpillsHigher(t: Trie, d: nat, k: Key, n: nat, e: nat, c: nat)
    requires Fits(t, d) && SpillsBelow(t, d, k, n, c) && e <= c
    ensures SpillsBelow(t, d, k, n, e)
  {
    if SpillsBelow(t.Child(k[d]), d + 1, k, n, c) {
      SpillsHigher(t.Child(k[d]), d + 1, k, n, e, c);
    }
  }

  /** A table of at most `n` peers never spills. */
  lemma {:induction false} SmallTableNeverSpills(t: Trie, d: nat, k: Key, n: nat)
    requires Fits(t, d) && Count(t) <= n
    ensures !Spills(t, d, k, n)
  {
    if t.Joint? {
      SmallTableNeverSpills(t.Child(k[d]), d + 1, k, n);
    }
  }

  lemma PrefixOf(p: Bits, k: Key, y: Key)
    requires p <= k && p <= y && |p| < KEYBITS
    ensures y[..|p|] == k[..|p|]
    ensures y[|p|] == k[|p|] ==> y[..|p| + 1] == k[..|p| + 1]
  {
    assert y[..|p|] == p == k[..|p|];
    assert y[..|p| + 1] == y[..|p|] + [y[|p|]] && k[..|p| + 1] == k[..|p|] + [k[|p|]];
  }

  /** Beside the other side of a joint on the way of `k` there are peers that share one bit more with `k`. */
  lemma Beside(t: Trie, p: Bits, self: Key, k: Key, y: Peer) returns (z: Peer)
    requires t.Joint? && Wf(t, p, self) && p <= k
    requires Holds(t.Child(!k[|p|]), y) && Count(t.Child(k[|p|])) > 0
    ensures |p| + 1 < KEYBITS && y.key[..|p|] == k[..|p|] && y.key[|p|] != k[|p|]
    ensures Holds(t, z) && z.key[..|p| + 1] == k[..|p| + 1]
  {
    var bit := k[|p|];
    AllPeersCount(t.Child(bit));
    z := AllPeers(t.Child(bit))[0];
    HoldsIsStored(t.Child(bit), z);
    SideBit(t, p, self, bit, z);
    SideBit(t, p, self, !bit, y);
    PrefixOf(p, k, y.key);
    PrefixOf(p, k, z.key);
  }

  /**
   A spill at depth `e` or deeper answers with a peer that shares `e` bits with the
   search key; so does a peer beside it.
   */
  lemma {:induction false} LowSpillAnswers(t: Trie, p: Bits, self: Key, k: Key, n: nat,
                                           e: nat) returns (y: Peer, z: Peer)
    requires Wf(t, p, self) && Fits(t, |p|) && p <= k && SpillsBelow(t, |p|, k, n, e)
    ensures Answers(t, |p|, k, n, y) && Holds(t, z)
    ensures e < KEYBITS && y.key[..e] == k[..e] && z.key[..e] == k[..e]
  {
    var bit := k[|p|];
    var preferred, alternate := t.Child(bit), t.Child(!bit);
    if SpillsBelow(preferred, |p| + 1, k, n, e) {
      PrefixStep(p, k);
      y, z := LowSpillAnswers(preferred, p + [bit], self, k, n, e);
    } else {
      y := LoudAnswer(alternate, |p| + 1, k, Count(preferred) - n);
      z := Beside(t, p, self, k, y);
      assert z.key[..e] == z.key[..|p| + 1][..e] && k[..e] == k[..|p| + 1][..e];
      assert y.key[..e] == y.key[..|p|][..e] && k[..e] == k[..|p|][..e];
    }
  }

  lemma SpillAnswers(t: Trie, d: nat, k: Key, n: nat, y: Peer)
    requires Fits(t, d) && Answers(t, d, k, n, y)
    ensures Holds(t, y) && !Quiet(t, d, k, n)
  {
    hide Quiet, Closest, Fits;
    AnswerSizeIs(t, d, k, n);
    AnswersIsClosest(t, d, k, n, y);
    AnswersFromHeld(t, d, k, n, y);
  }

  /**
   An answer from an empty leaf's table was spilled at the depth where it leaves the
   search key, past a stored peer.
   */
  lemma {:induction false} SpilledAnswer(t: Trie, p: Bits, self: Key, k: Key, n: nat, y: Peer) returns (c: nat, z: Peer)
    requires Wf(t, p, self) && Fits(t, |p|) && p <= k && Route(t, |p|, k) == [] && Answers(t, |p|, k, n, y)
    ensures c < KEYBITS && y.key[..c] == k[..c] && y.key[c] != k[c]
    ensures SpillsBelow(t, |p|, k, n, c)
    ensures Holds(t, z) && z.key[..c + 1] == k[..c + 1]
  {
    var bit := k[|p|];
    var preferred, alternate := t.Child(bit), t.Child(!bit);
    if Answers(preferred, |p| + 1, k, n, y) {
      PrefixStep(p, k);
      c, z := SpilledAnswer(preferred, p + [bit], self, k, n, y);
    } else {
      c := |p|;
      SpillAnswers(alternate, c + 1, k, Count(preferred) - n, y);
      z := Beside(t, p, self, k, y);
    }
  }

  /** A node shares with the nearest node what it shares with the search key. */
  lemma NearestShares(k: Key, nodes: set<Peer>, g: Peer, z: Peer, e: nat)
    requires IsNearestNode(g, k, nodes) && z in nodes && e <= KEYBITS && z.key[..e] == k[..e]
    ensures g.key[..e] == k[..e]
  {
    AgreeAtLeast(z.key, k, e);
    DistInjective(k, k, k);
    NearestToItself(k, g.key);
    Sandwich(k, k, g.key, z.key);
    AgreeAtLeast(g.key, k, e);
  }

  lemma NearestToItself(k: Key, a: Key)
    ensures Dist(k, k) <= Dist(k, a)
  {
    if a != k {
      DistOrder(k, k, a);
    }
  }

  /**
   Exactly when the query as written leads from a complete table of `x` towards the
   nearest node: `x` is that node, or the leaf of the search key is not empty, or a
   spill below the bit where `x` leaves the nearest node answers.
   */
  lemma QueryLeadsExactly(t: Trie, x: Peer, k: Key, nodes: set<Peer>, g: Peer)
    requires Fits(t, 0) && Wf(t, [], x.key) && CompleteTable(t, x.key, nodes) && IsNearestNode(g, k, nodes)
    ensures Towards(x.key, g.key, Closest(t, 0, k, KBUCKET_MAX)) <==>
            || x.key == g.key
            || Route(t, 0, k) != []
            || SpillsBelow(t, 0, k, KBUCKET_MAX, Agree(x.key, g.key) + 1)
  {
    hide Closest, Answers, Wf, Fits, Route, SpillsBelow, CompleteTable, IsNearestNode;
    QueryLeads(t, x, k, nodes, g);
    var d := Agree(x.key, g.key);
    if x.key != g.key && Route(t, 0, k) == [] {
      if SpillsBelow(t, 0, k, KBUCKET_MAX, d + 1) {
        LowSpillLeads(t, x, k, nodes, g);
      }
      if y :| y in Closest(t, 0, k, KBUCKET_MAX) && Agree(y.key, g.key) > d {
        AnswersIsClosest(t, 0, k, KBUCKET_MAX, y);
        LeadIsLowSpill(t, x, k, nodes, g, y);
      }
    }
  }

  lemma HeldIsNode(t: Trie, x: Key, nodes: set<Peer>, z: Peer)
    requires CompleteTable(t, x, nodes) && Holds(t, z)
    ensures z in nodes
  {
  }

  lemma LowSpillLeads(t: Trie, x: Peer, k: Key, nodes: set<Peer>, g: Peer)
    requires Fits(t, 0) && Wf(t, [], x.key) && CompleteTable(t, x.key, nodes) && IsNearestNode(g, k, nodes)
    requires x.key != g.key && SpillsBelow(t, 0, k, KBUCKET_MAX, Agree(x.key, g.key) + 1)
    ensures Towards(x.key, g.key, Closest(t, 0, k, KBUCKET_MAX))
  {
    hide Closest, Answers, Wf, Fits, SpillsBelow, CompleteTable, IsNearestNode;
    var e := Agree(x.key, g.key) + 1;
    var y, z := LowSpillAnswers(t, [], x.key, k, KBUCKET_MAX, e);
    HeldIsNode(t, x.key, nodes, z);
    NearestShares(k, nodes, g, z, e);
    AgreeAtLeast(y.key, g.key, e);
    AnswersIsClosest(t, 0, k, KBUCKET_MAX, y);
  }

  lemma SharedBit(k: Key, g: Key, y: Key, c: nat)
    requires c < KEYBITS && g[..c + 1] == k[..c + 1] && y[..c + 1] == g[..c + 1]
    ensures y[c] == k[c]
  {
    assert y[c] == y[..c + 1][c] && k[c] == k[..c + 1][c];
  }

  lemma LeadIsLowSpill(t: Trie, x: Peer, k: Key, nodes: set<Peer>, g: Peer, y: Peer)
    requires Fits(t, 0) && Wf(t, [], x.key) && CompleteTable(t, x.key, nodes) && IsNearestNode(g, k, nodes)
    requires Route(t, 0, k) == [] && Answers(t, 0, k, KBUCKET_MAX, y) && Agree(y.key, g.key) > Agree(x.key, g.key)
    ensures SpillsBelow(t, 0, k, KBUCKET_MAX, Agree(x.key, g.key) + 1)
  {
    hide Closest, Answers, Wf, Fits, Route, SpillsBelow;
    var e := Agree(x.key, g.key) + 1;
    var c, z := SpilledAnswer(t, [], x.key, k, KBUCKET_MAX, y);
    if c < e {
      NearestShares(k, nodes, g, z, c + 1);
      AgreeAtLeast(y.key, g.key, c + 1);
      SharedBit(k, g.key, y.key, c);
      assert false;
    }
    SpillsHigher(t, 0, k, KBUCKET_MAX, e, c);
  }

  /** Where nothing spills, in particular in a table of at most K peers, only the leaf of the search key counts. */
  lemma WithoutSpillLeadsExactly(t: Trie, x: Peer, k: Key, nodes: set<Peer>, g: Peer)
    requires Fits(t, 0) && Wf(t, [], x.key) && CompleteTable(t, x.key, nodes) && IsNearestNode(g, k, nodes)
    requires !Spills(t, 0, k, KBUCKET_MAX) || Count(t) <= KBUCKET_MAX
    ensures Towards(x.key, g.key, Closest(t, 0, k, KBUCKET_MAX)) <==> x.key == g.key || Route(t, 0, k) != []
  {
    hide Closest, Wf, Route, Spills, SpillsBelow, CompleteTable, Towards, Count, IsNearestNode, Agree;
    QueryLeadsExactly(t, x, k, nodes, g);
    if Count(t) <= KBUCKET_MAX {
      SmallTableNeverSpills(t, 0, k, KBUCKET_MAX);
    }
    if SpillsBelow(t, 0, k, KBUCKET_MAX, Agree(x.key, g.key) + 1) {
      SpillsBelowIsSpill(t, 0, k, KBUCKET_MAX, Agree(x.key, g.key) + 1);
    }
  }
}
