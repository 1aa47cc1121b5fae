/**
 From routing tables to lookups: networks whose nodes answer from complete tables
 (src/dht/rpc.cpp:142-158, 170-199, src/dht/session.cpp:239-242).

 A node updates its table with every caller before it answers, so each reply comes
 from a table of its own; what is assumed is assumed of that table alone.  With the
 documented query it is enough that the table is good; with the query as written it
 must also point on at the time of the call.  `Tables.QueryLeadsExactly` says what
 that means, `Starvation.StarvedNetworkThrows` is a complete network without it, and
 `Starvation.UpdateEmptiesTheLeaf` an update by a caller that brings it about.
 */
module Networks {
  import opened Keys
  import opened Tries
  import opened Queries
  import opened Lookups
  import opened Runs
  import opened LookupFacts
  import opened Convergence
  import opened Tables

  ghost predicate DistinctEndpoints(all: set<Peer>) {
    forall x, y :: x in all && y in all && x.endpoint == y.endpoint ==> x == y
  }

  ghost predicate Network(all: set<Peer>) {
    DistinctNodes(all) && DistinctEndpoints(all)
  }

  /** A table of `x` as histories leave it, complete for the network. */
  ghost predicate GoodTable(t: Trie, x: Peer, all: set<Peer>) {
    Sound(t, x) && CompleteTable(t, x.key, all)
  }

  ghost predicate CompleteNetwork(all: set<Peer>, tables: Peer -> Trie) {
    Network(all) && forall x :: x in all ==> GoodTable(tables(x), x, all)
  }

  /** Which nearest-peer query the nodes run. */
  datatype Query = Documented | AsWritten

  function Bucketful(q: Query, t: Trie, k: Key): seq<Peer>
    requires Fits(t, 0)
  {
    match q
    case Documented => Nearest(t, 0, k, KBUCKET_MAX)
    case AsWritten => Closest(t, 0, k, KBUCKET_MAX)
  }

  /** The condition under which a complete table leads towards `g`: none for the documented query. */
  ghost predicate PointsOn(q: Query, t: Trie, x: Key, k: Key, g: Key)
    requires Fits(t, 0)
  {
    || q.Documented?
    || x == g
    || Route(t, 0, k) != []
    || SpillsBelow(t, 0, k, KBUCKET_MAX, Agree(x, g) + 1)
  }

  ghost predicate PointsToNearest(q: Query, t: Trie, x: Peer, k: Key, all: set<Peer>)
    requires Fits(t, 0)
  {
    forall g :: IsNearestNode(g, k, all) ==> PointsOn(q, t, x.key, k, g.key)
  }

  /** A list that `x` can answer with: a bucketful of some good table of `x` that points on. */
  ghost predicate TableReply(q: Query, x: Peer, k: Key, all: set<Peer>, ps: seq<Peer>) {
    exists t :: GoodTable(t, x, all) && PointsToNearest(q, t, x, k, all) && ps == Bucketful(q, t, k)
  }

  /** The other nodes answer, with the value or each from a table of its own. */
  ghost predicate AnswersFromTables(q: Query, self: Peer, net: Net, k: Key, all: set<Peer>) {
    forall x :: x in all - {self} ==>
      && !net(x).NoAnswer?
      && (net(x).Nodes? ==> TableReply(q, x, k, all, net(x).peers))
  }

  /** A bucketful from a complete table names other nodes. */
  lemma BucketfulNamesOthers(q: Query, t: Trie, x: Peer, k: Key, all: set<Peer>)
    requires GoodTable(t, x, all)
    ensures forall y :: y in Bucketful(q, t, k) ==> y in all - {x}
  {
    hide Closest, Nearest, Wf, Fits, Shallow, Elsewhere;
    NearestIsHeld(t, 0, k, KBUCKET_MAX);
    ClosestIsHeld(t, 0, k, KBUCKET_MAX);
    forall y | y in Bucketful(q, t, k) ensures y in all - {x} {
      PeerUnderPath(t, [], x.key, y);
    }
  }

  /** By the documented query it names at least one; by the query as written, none exactly if the query is quiet. */
  lemma BucketfulIsEmptyExactly(q: Query, t: Trie, x: Peer, k: Key, all: set<Peer>)
    requires DistinctNodes(all) && x in all && all != {x} && GoodTable(t, x, all)
    ensures Bucketful(q, t, k) == [] <==> q.AsWritten? && Quiet(t, 0, k, KBUCKET_MAX)
  {
    hide Closest, Nearest, Wf, Fits, Quiet, Shallow, Elsewhere;
    var z :| z in all && z != x;
    var y :| Holds(t, y) && Agree(y.key, z.key) > Agree(x.key, z.key);
    NearestSize(t, 0, k, KBUCKET_MAX);
    HoldersCount(t, y);
    AnswerSizeIs(t, 0, k, KBUCKET_MAX);
  }

  /** It leads towards the nearest node if and only if the table points on. */
  lemma BucketfulLeadsExactly(q: Query, t: Trie, x: Peer, k: Key, all: set<Peer>, g: Peer)
    requires GoodTable(t, x, all) && IsNearestNode(g, k, all)
    ensures Towards(x.key, g.key, Bucketful(q, t, k)) <==> PointsOn(q, t, x.key, k, g.key)
  {
    hide Closest, Nearest, Wf, Fits, Shallow, Elsewhere, CompleteTable, IsNearestNode, SpillsBelow, Route;
    QueryLeads(t, x, k, all, g);
    QueryLeadsExactly(t, x, k, all, g);
  }

  /** A reply names other nodes and leads towards the nearest. */
  lemma ReplyLeads(q: Query, x: Peer, k: Key, all: set<Peer>, ps: seq<Peer>)
    requires TableReply(q, x, k, all, ps)
    ensures forall y :: y in ps ==> y in all - {x}
    ensures forall g :: IsNearestNode(g, k, all) ==> Towards(x.key, g.key, ps)
  {
    hide Wf, Shallow, Elsewhere, CompleteTable, Bucketful, PointsOn, IsNearestNode, Towards;
    var t :| GoodTable(t, x, all) && PointsToNearest(q, t, x, k, all) && ps == Bucketful(q, t, k);
    BucketfulNamesOthers(q, t, x, k, all);
    forall g | IsNearestNode(g, k, all) ensures Towards(x.key, g.key, ps) {
      BucketfulLeadsExactly(q, t, x, k, all, g);
    }
  }

  /** A node on the way to `g` still leads there when its reply loses the requester. */
  lemma LeadSurvivesRequester(self: Peer, all: set<Peer>, x: Peer, ps: seq<Peer>, g: Peer)
    requires Network(all) && self in all
    requires (forall y :: y in ps ==> y in all) && Towards(x.key, g.key, ps)
    requires Agree(x.key, g.key) > Agree(self.key, g.key)
    ensures Towards(x.key, g.key, Keep(self, ps))
  {
    KeepDropsSelf(self, ps);
    if x.key != g.key {
      var y :| y in ps && Agree(y.key, g.key) > Agree(x.key, g.key);
      assert y in all && y != self;
    }
  }

  /**
   Replies from good tables that point on make a healthy network for every node that
   is not itself the nearest: the nodes a lookup asks share more bits with the nearest
   than the requester does, so their lists still lead there without the requester.
   */
  lemma CompleteNetworkIsHealthy(q: Query, self: Peer, k: Key, all: set<Peer>, net: Net, g: Peer)
    requires Network(all) && AnswersFromTables(q, self, net, k, all)
    requires self in all && IsNearestNode(g, k, all) && g != self
    ensures Healthy(self, net, all - {self}, g, Agree(self.key, g.key))
    ensures IsNearestNode(g, k, all - {self})
  {
    hide Towards, Live, Agree, Keep, Network, IsNearestNode, Dist, TableReply;
    CompleteNetworkIsLive(q, self, k, all, net);
    NearestOfOthers(self, k, all, g);
    forall x | x in all - {self} && net(x).Nodes? && Agree(x.key, g.key) > Agree(self.key, g.key)
      ensures Towards(x.key, g.key, Keep(self, net(x).peers))
    {
      ReplyLeads(q, x, k, all, net(x).peers);
      LeadSurvivesRequester(self, all, x, net(x).peers, g);
    }
  }

  lemma NearestOfOthers(self: Peer, k: Key, all: set<Peer>, g: Peer)
    requires IsNearestNode(g, k, all) && g != self
    ensures IsNearestNode(g, k, all - {self})
  {
  }

  lemma CompleteNetworkIsLive(q: Query, self: Peer, k: Key, all: set<Peer>, net: Net)
    requires Network(all) && AnswersFromTables(q, self, net, k, all) && self in all
    ensures Live(self, net, all - {self})
  {
    hide TableReply, IsNearestNode, Towards;
    forall x, y | x in all - {self} && net(x).Nodes? && y in Keep(self, net(x).peers)
      ensures y in all - {self}
    {
      ReplyLeads(q, x, k, all, net(x).peers);
      KeepDropsSelf(self, net(x).peers);
    }
  }

  /** A lookup ended with a value, or with `g` first on its list and asked. */
  ghost predicate FindsOrAsks(o: Outcome, g: Key) {
    match o
    case Found(_, _) => true
    case OutOfRange(_) => false
    case Settled(r, a, _) => r != [] && r[0].key == g && g in KeysOf(a)
  }

  /**
   From tables to lookups: where every reply, and the start, comes from a good table
   that points on, a lookup by any node that is not itself nearest to the key finds a
   value or settles on the nearest node of all, having asked it.
   */
  lemma CompleteNetworkConverges(q: Query, self: Peer, k: Key, all: set<Peer>, net: Net, local: seq<Peer>, g: Peer)
    requires Network(all) && AnswersFromTables(q, self, net, k, all) && TableReply(q, self, k, all, local)
    requires self in all && IsNearestNode(g, k, all) && g != self
    ensures FindsOrAsks(Lookup(self, k, net, [], local), g.key)
  {
    hide Lookup, Healthy, AnswersFromTables, IsNearestNode, Reaches, TableReply;
    CompleteNetworkIsHealthy(q, self, k, all, net, g);
    NearestIsNode(g, k, all);
    LocalReaches(q, self, k, all, local, g);
    assert [] + local == local;
    LookupConverges(self, k, net, all - {self}, g, Agree(self.key, g.key), [], local);
  }

  lemma NearestIsNode(g: Peer, k: Key, nodes: set<Peer>)
    requires IsNearestNode(g, k, nodes)
    ensures g in nodes
  {
  }

  /** A node's own table gives its lookups a start beyond the bits it shares with the nearest itself. */
  lemma LocalReaches(q: Query, self: Peer, k: Key, all: set<Peer>, local: seq<Peer>, g: Peer)
    requires Network(all) && TableReply(q, self, k, all, local)
    requires self in all && IsNearestNode(g, k, all) && g != self
    ensures Reaches(Agree(self.key, g.key), g.key, local)
    ensures forall x :: x in local ==> x in all - {self}
  {
    hide TableReply;
    ReplyLeads(q, self, k, all, local);
    assert Towards(self.key, g.key, local) && self.key != g.key;
  }

  // ---------- Where good tables come from ----------

  /** The documented query needs nothing but a good table. */
  lemma DocumentedReply(t: Trie, x: Peer, k: Key, all: set<Peer>)
    requires GoodTable(t, x, all)
    ensures TableReply(Documented, x, k, all, Bucketful(Documented, t, k))
  {
  }

  /** For the query as written it is enough that the leaf of the key is not empty. */
  lemma LeafyReply(t: Trie, x: Peer, k: Key, all: set<Peer>)
    requires GoodTable(t, x, all) && Route(t, 0, k) != []
    ensures TableReply(AsWritten, x, k, all, Bucketful(AsWritten, t, k))
    ensures Bucketful(AsWritten, t, k) != []
  {
    hide Wf, Shallow, Elsewhere, Closest, Nearest;
    assert PointsToNearest(AsWritten, t, x, k, all);
    var r := Route(t, 0, k)[0];
    RouteIsAnswered(t, [], x.key, k, KBUCKET_MAX, r);
    AnswersIsClosest(t, 0, k, KBUCKET_MAX, r);
  }

  /** Whom a well-formed trie holds is in its map, and the other way round. */
  lemma HoldsIsInMap(t: Trie, self: Key, z: Peer)
    requires Wf(t, [], self)
    ensures Holds(t, z) <==> z.key in AsMap(t) && AsMap(t)[z.key] == z.endpoint
  {
    hide Wf, AsMap;
    if Holds(t, z) {
      PeerInMap(t, [], self, z);
    }
    if z.key in AsMap(t) && AsMap(t)[z.key] == z.endpoint {
      MapKeysArePeers(t);
      var y :| y in AllPeers(t) && y.key == z.key;
      HoldsIsStored(t, y);
      PeerInMap(t, [], self, y);
      assert y == z;
    }
  }

  /** A network node that calls, or is heard of, leaves a good table good: nobody is lost, nobody foreign comes in. */
  lemma InsertKeepsGood(t: Trie, x: Peer, all: set<Peer>, y: Peer)
    requires Network(all) && GoodTable(t, x, all) && y in all
    ensures GoodTable(AttemptInsert(t, x, y).t, x, all)
  {
    hide Wf, Shallow, Elsewhere, AttemptInsert, AsMap, Agree, Fits;
    AttemptInsertSound(t, x, y);
    AttemptInsertRefinesMap(t, x, y);
    var u := AttemptInsert(t, x, y).t;
    forall z ensures Holds(u, z) ==> z in all {
      HoldsIsInMap(t, x.key, z);
      HoldsIsInMap(u, x.key, z);
    }
    forall z | Holds(t, z) ensures Holds(u, z) {
      HoldsIsInMap(t, x.key, z);
      HoldsIsInMap(u, x.key, z);
    }
  }

  /** Where the least recently used peer of a full bucket answers, `update_peer` is one attempt to insert. */
  lemma AnsweredUpdate(t: Trie, x: Peer, y: Peer, answer: Option<Peer>)
    requires Sound(t, x)
    requires var r := AttemptInsert(t, x, y); r.Refused? ==> answer.Some? && answer.value.key == r.lru.key
    ensures Fits(AttemptInsert(t, x, y).t, 0)
    ensures AttemptInsert(t, x, y).Refused? ==>
      Fits(EvictPeer(AttemptInsert(t, x, y).t, x, AttemptInsert(t, x, y).lru.key), 0)
    ensures UpdatePeer(t, x, y, answer) == (AttemptInsert(t, x, y).t, 0)
  {
    hide Wf, Shallow, Elsewhere, AttemptInsert, Fits, EvictPeer;
    UpdatePeerRefinesMap(t, x, y, answer);
  }

  /** The table of `x` after calls by these nodes, everybody answering. */
  ghost function AfterCalls(t: Trie, x: Peer, callers: seq<Peer>): (u: Trie)
    requires Sound(t, x)
    ensures Sound(u, x)
  {
    if callers == [] then t
    else
      var before := AfterCalls(t, x, callers[..|callers| - 1]);
      AttemptInsertSound(before, x, callers[|callers| - 1]);
      AttemptInsert(before, x, callers[|callers| - 1]).t
  }

  lemma {:induction false} CallsKeepGood(t: Trie, x: Peer, all: set<Peer>, callers: seq<Peer>)
    requires Network(all) && GoodTable(t, x, all) && forall y :: y in callers ==> y in all
    ensures GoodTable(AfterCalls(t, x, callers), x, all)
  {
    hide Sound, CompleteTable, AttemptInsert, Network;
    if callers != [] {
      var n := |callers| - 1;
      CallsKeepGood(t, x, all, callers[..n]);
      InsertKeepsGood(AfterCalls(t, x, callers[..n]), x, all, callers[n]);
    }
  }

  /**
   In a live network of complete tables, whoever called whom before, every list that
   the documented query answers is a reply from a good table.
   */
  lemma CallsAnswerFromTables(self: Peer, net: Net, k: Key, all: set<Peer>, tables: Peer -> Trie,
                              heard: Peer -> seq<Peer>)
    requires CompleteNetwork(all, tables)
    requires forall x, y :: x in all && y in heard(x) ==> y in all
    requires forall x :: x in all - {self} ==>
      && !net(x).NoAnswer?
      && (net(x).Nodes? ==> net(x).peers == Bucketful(Documented, AfterCalls(tables(x), x, heard(x)), k))
    ensures AnswersFromTables(Documented, self, net, k, all)
  {
    hide Network, Sound, CompleteTable, Bucketful, TableReply;
    forall x | x in all - {self} && net(x).Nodes? ensures TableReply(Documented, x, k, all, net(x).peers) {
      CallsKeepGood(tables(x), x, all, heard(x));
      DocumentedReply(AfterCalls(tables(x), x, heard(x)), x, k, all);
    }
  }

  function FirstTable(self: Peer, other: Peer): Trie {
    AttemptInsert(Leaf([]), self, other).t
  }

  /** The table a session starts with, for the peer it starts from. */
  lemma FirstTableIsGood(x: Peer, y: Peer)
    requires x.key != y.key && x.endpoint != y.endpoint
    ensures GoodTable(FirstTable(x, y), x, {x, y})
  {
    assert Insert(Leaf([]), 0, x.key, y) == Inserted(Leaf([y])) by {
      assert [y] + [] == [y];
    }
    var t := FirstTable(x, y);
    assert t == Leaf([y]);
    assert Holds(t, y);
  }

  /** Two sessions that start from each other are such a network. */
  lemma TwoSessionsAreComplete(a: Peer, b: Peer)
    requires a.key != b.key && a.endpoint != b.endpoint
    ensures CompleteNetwork({a, b}, x => FirstTable(x, if x == a then b else a))
  {
    hide GoodTable, FirstTable;
    FirstTableIsGood(a, b);
    FirstTableIsGood(b, a);
    assert {a, b} == {b, a};
  }
}
