/**
 End to end: what `get` returns anywhere after a `set` (src/dht/session.cpp:95-144,
 217-232; src/dht/rpc.cpp:163-251, 307-403) in a network whose nodes all answer.
 */
module Retrieval {
  import opened Keys
  import opened Tries
  import opened Queries
  import opened Lookups
  import opened LookupFacts
  import opened Convergence
  import opened Runs
  import opened Networks
  import opened Tables

  /** The chunks each node holds, by the key of the node. */
  type Chunks = map<Key, map<Key, Bytes>>

  /** `store` on a node that answers: `StoreInit` says whether to continue, `Store` overwrites. */
  function StoreAt(h: Chunks, node: Key, k: Key, data: Bytes, force: bool): Chunks {
    if node !in h then h
    else if k in h[node] && !force then h
    else h[node := Put(h[node], k, data)]
  }

  function Put(m: map<Key, Bytes>, k: Key, data: Bytes): map<Key, Bytes> {
    m[k := data]
  }

  function StoreAll(h: Chunks, targets: seq<Peer>, k: Key, data: Bytes, force: bool): Chunks {
    if targets == [] then h
    else StoreAt(StoreAll(h, targets[..|targets| - 1], k, data, force), targets[|targets| - 1].key, k, data, force)
  }

  function MaxDist(k: Key, targets: seq<Peer>): nat {
    if targets == [] then 0
    else
      var m := MaxDist(k, targets[..|targets| - 1]);
      var d := Dist(k, targets[|targets| - 1].key);
      if m < d then d else m
  }

  /** The test of `publish` for a local copy. */
  predicate KeepsLocalCopy(self: Peer, k: Key, buffer: seq<Peer>) {
    |buffer| <= KBUCKET_MAX || MaxDist(k, buffer[..KBUCKET_MAX]) >= Dist(k, self.key)
  }

  /** `publish` of a chunk to the peers `node_lookup` returned. */
  function Publish(h: Chunks, self: Peer, buffer: seq<Peer>, k: Key, data: Bytes, force: bool): Chunks
    requires self.key in h
  {
    var stored := StoreAll(h, if |buffer| < KBUCKET_MAX then buffer else buffer[..KBUCKET_MAX], k, data, force);
    if KeepsLocalCopy(self, k, buffer) && self.key in stored then stored[self.key := Put(stored[self.key], k, data)]
    else stored
  }

  /** `get`: the local copy, or a value lookup. */
  function Get(mine: map<Key, Bytes>, self: Peer, k: Key, net: Net, local: seq<Peer>): Option<Bytes> {
    if k in mine then Some(mine[k])
    else
      match Lookup(self, k, net, [], local)
      case Found(data, _) => Some(data)
      case _ => None
  }

  /** Values come from nodes that hold them, and a node that holds the value sends it. */
  ghost predicate ServesChunks(h: Chunks, k: Key, net: Net, nodes: set<Peer>) {
    && (forall x :: net(x).Value? ==> x.key in h && k in h[x.key] && net(x).data == h[x.key][k])
    && (forall x :: x in nodes && x.key in h && k in h[x.key] ==> net(x).Value?)
  }

  /**
   A result of `get` is the local copy or was sent by a peer the lookup asked; no
   result means there is no local copy and no peer that was asked had one.
   */
  lemma GetIsHonest(mine: map<Key, Bytes>, self: Peer, k: Key, net: Net, local: seq<Peer>)
    ensures var asked := Lookup(self, k, net, [], local).asked;
      match Get(mine, self, k, net, local)
      case Some(data) =>
        if k in mine then data == mine[k]
        else exists x :: x in asked && net(x) == Value(data)
      case None => k !in mine && NoValue(net, asked)
  {
    var o := Lookup(self, k, net, [], local);
    LookupIsHonest(self, k, net, [], local);
    if o.Found? {
      assert o.asked[|o.asked| - 1] in o.asked;
    }
  }

  // ---------- Publishing ----------

  /** The replicas of a key after storing: every target has the key, and forced targets have the new data. */
  lemma {:induction false} StoreAllAt(h: Chunks, targets: seq<Peer>, k: Key, data: Bytes, force: bool, node: Key)
    requires node in h
    ensures var s := StoreAll(h, targets, k, data, force);
      && s.Keys == h.Keys
      && (forall k' :: k' != k ==> (k' in s[node] <==> k' in h[node]) && (k' in h[node] ==> s[node][k'] == h[node][k']))
      && (if node in KeysOf(targets) && (force || k !in h[node]) then k in s[node] && s[node][k] == data
          else (k in s[node] <==> k in h[node]) && (k in h[node] ==> s[node][k] == h[node][k]))
  {
    if targets != [] {
      var n := |targets| - 1;
      hide KeysOf;
      StoreAllAt(h, targets[..n], k, data, force, node);
      LastKey(targets);
    }
  }

  lemma LastKey(s: seq<Peer>)
    requires s != []
    ensures KeysOf(s) == KeysOf(s[..|s| - 1]) + {s[|s| - 1].key}
  {
    assert s == s[..|s| - 1] + [s[|s| - 1]];
  }

  /** `node_lookup` never returns more than K peers, so `publish` always keeps a local copy. */
  lemma PublishKeepsLocalCopy(h: Chunks, self: Peer, k: Key, net: Net, again: Net, local: seq<Peer>,
                              data: Bytes, force: bool)
    requires self.key in h && NodeLookup(self, k, net, again, local).Some?
    ensures var buffer := NodeLookup(self, k, net, again, local).value;
      var s := Publish(h, self, buffer, k, data, force);
      && |buffer| <= KBUCKET_MAX
      && self.key in s && k in s[self.key] && s[self.key][k] == data
  {
    hide NodeLookup, StoreAll;
    var buffer := NodeLookup(self, k, net, again, local).value;
    NodeLookupFindsTop(self, k, net, again, local);
    PublishAt(h, self, buffer, k, data, force, self.key);
  }

  /** Who holds what after a publish. */
  lemma PublishAt(h: Chunks, self: Peer, buffer: seq<Peer>, k: Key, data: Bytes, force: bool, node: Key)
    requires self.key in h && |buffer| <= KBUCKET_MAX && node in h
    ensures var s := Publish(h, self, buffer, k, data, force);
      && s.Keys == h.Keys
      && (if node == self.key || (node in KeysOf(buffer) && (force || k !in h[node]))
          then k in s[node] && s[node][k] == data
          else (k in s[node] <==> k in h[node]) && (k in h[node] ==> s[node][k] == h[node][k]))
  {
    var targets := if |buffer| < KBUCKET_MAX then buffer else buffer[..KBUCKET_MAX];
    assert targets == buffer;
    StoreAllAt(h, targets, k, data, force, node);
    StoreAllAt(h, targets, k, data, force, self.key);
  }

  // ---------- Reading ----------

  /** Every copy of `k` is `data`. */
  ghost predicate AllAgree(h: Chunks, k: Key, data: Bytes) {
    forall node :: node in h && k in h[node] ==> h[node][k] == data
  }

  /** A lookup that settles has asked the closest node itself. */
  lemma SettledAskedTheNearest(self: Peer, k: Key, net: Net, nodes: set<Peer>, g: Peer, base: nat, local: seq<Peer>)
    requires DistinctNodes(nodes) && Healthy(self, net, nodes, g, base) && IsNearestNode(g, k, nodes)
    requires Reaches(base, g.key, local) && forall x :: x in local ==> x in nodes
    ensures var o := Lookup(self, k, net, [], local); o.Found? || (o.Settled? && g in o.asked)
  {
    hide Reaches, Lookup, IsNearestNode;
    assert [] + local == local;
    var o := Lookup(self, k, net, [], local);
    LookupConverges(self, k, net, nodes, g, base, [], local);
    LookupStaysOn(self, k, net, nodes, local);
    NearestIsNode(g, k, nodes);
    if o.Settled? {
      var q :| q in o.asked && q.key == g.key;
      assert q == g;
    }
  }

  /** If the node closest to the key holds it and all copies agree, a value lookup finds it. */
  lemma LookupFindsHeldValue(h: Chunks, self: Peer, k: Key, data: Bytes, net: Net, nodes: set<Peer>, g: Peer,
                             base: nat, local: seq<Peer>)
    requires DistinctNodes(nodes) && ServesChunks(h, k, net, nodes) && AllAgree(h, k, data)
    requires Healthy(self, net, nodes, g, base) && IsNearestNode(g, k, nodes)
    requires Reaches(base, g.key, local) && forall x :: x in local ==> x in nodes
    requires g.key in h && k in h[g.key]
    ensures var o := Lookup(self, k, net, [], local); o.Found? && o.data == data
  {
    hide Healthy, Reaches, Lookup;
    SettledAskedTheNearest(self, k, net, nodes, g, base, local);
    LookupIsHonest(self, k, net, [], local);
  }

  lemma NearestExists(k: Key, nodes: set<Peer>) returns (g: Peer)
    requires nodes != {}
    ensures IsNearestNode(g, k, nodes)
  {
    var y :| y in nodes;
    g := NearestFrom(k, nodes, y);
  }

  lemma NearestFrom(k: Key, nodes: set<Peer>, y: Peer) returns (g: Peer)
    requires y in nodes
    ensures IsNearestNode(g, k, nodes)
    decreases Dist(k, y.key)
  {
    if z :| z in nodes && Dist(k, z.key) < Dist(k, y.key) {
      g := NearestFrom(k, nodes, z);
    } else {
      g := y;
    }
  }

  /** Unless `x` is the nearest node itself, what it hears leads to the nearest and its own table gives it a start. */
  ghost predicate FindsNearest(x: Peer, k: Key, all: set<Peer>, net: Net, local: seq<Peer>) {
    forall g :: IsNearestNode(g, k, all) && g != x ==>
      Healthy(x, net, all - {x}, g, Agree(x.key, g.key)) && Reaches(Agree(x.key, g.key), g.key, local)
  }

  /** What the reader `r` sees: chunks are served from `h`, and lookups find the nearest node. */
  ghost predicate GoodReader(h: Chunks, r: Peer, k: Key, all: set<Peer>, net: Net, local: seq<Peer>) {
    && ServesChunks(h, k, net, all - {r})
    && (forall x :: x in local ==> x in all - {r})
    && FindsNearest(r, k, all, net, local)
  }

  /** Publisher `p` has other nodes as targets, the nearest of all among them if it is not `p`. */
  ghost predicate GoodPublisher(p: Peer, k: Key, all: set<Peer>, buffer: seq<Peer>) {
    && |buffer| <= KBUCKET_MAX
    && (forall x :: x in buffer ==> x in all - {p})
    && forall g :: IsNearestNode(g, k, all) && g != p ==> g in buffer
  }

  /** A lookup in a healthy network makes a good publisher. */
  lemma LookupMakesGoodPublisher(p: Peer, k: Key, all: set<Peer>, net: Net, again: Net, local: seq<Peer>)
    requires DistinctNodes(all) && p in all && NoValues(net)
    requires Live(p, net, all - {p}) && Live(p, again, all - {p}) && FindsNearest(p, k, all, net, local)
    requires local != [] && forall x :: x in local ==> x in all - {p}
    ensures NodeLookup(p, k, net, again, local).Some?
    ensures GoodPublisher(p, k, all, NodeLookup(p, k, net, again, local).value)
  {
    hide NodeLookup, Lookup, Live, Healthy, Reaches, IsNearestNode;
    NodeLookupStays(p, k, net, again, all - {p}, local);
    var buffer := NodeLookup(p, k, net, again, local).value;
    forall g | IsNearestNode(g, k, all) && g != p ensures g in buffer {
      NearestOfOthers(p, k, all, g);
      NodeLookupConverges(p, k, net, again, all - {p}, g, Agree(p.key, g.key), local);
      NearestIsNode(g, k, all);
      assert buffer[0] in buffer && buffer[0] == g;
    }
  }

  /**
   If no stale copy survives the publish, `get` returns the published data at any
   node.  The nearest node of all has the chunk, as the publisher or as a target;
   the reader has it too, or is another node and finds it there.
   */
  lemma GetAfterPublish(h: Chunks, p: Peer, r: Peer, k: Key, data: Bytes, force: bool, all: set<Peer>,
                        buffer: seq<Peer>, net: Net, local: seq<Peer>)
    requires DistinctNodes(all) && p in all && r in all && h.Keys == set x | x in all :: x.key
    requires GoodPublisher(p, k, all, buffer)
    requires GoodReader(Publish(h, p, buffer, k, data, force), r, k, all, net, local)
    requires AllAgree(Publish(h, p, buffer, k, data, force), k, data)
    ensures r.key in Publish(h, p, buffer, k, data, force)
    ensures Get(Publish(h, p, buffer, k, data, force)[r.key], r, k, net, local) == Some(data)
  {
    hide Lookup, Healthy, Reaches, StoreAll, Publish, IsNearestNode;
    var s := Publish(h, p, buffer, k, data, force);
    PublishAt(h, p, buffer, k, data, force, p.key);
    var g := NearestExists(k, all);
    NearestIsNode(g, k, all);
    PublishAt(h, p, buffer, k, data, force, g.key);
    assert k in s[g.key];
    if k !in s[r.key] {
      NearestOfOthers(r, k, all, g);
      LookupFindsHeldValue(s, r, k, data, net, all - {r}, g, Agree(r.key, g.key), local);
    }
  }

  /** Before the publish, every node with other data under `k` is the publisher or will be overwritten. */
  ghost predicate NoStaleCopyElsewhere(h: Chunks, p: Peer, k: Key, data: Bytes, force: bool, all: set<Peer>,
                                       buffer: seq<Peer>) {
    forall x :: x in all && x.key in h && k in h[x.key] && h[x.key][k] != data ==>
      x == p || (force && x in buffer)
  }

  /**
   Exactly when a published value is read back everywhere: no node that holds
   other data under the key is out of reach of the publish.  In particular always
   for a fresh key and for content-addressed data; but a forced overwrite leaves
   an earlier publisher with its old copy unless it is among the targets.
   */
  lemma ReadBackEverywhereExactly(h: Chunks, p: Peer, k: Key, data: Bytes, force: bool, all: set<Peer>,
                                  buffer: seq<Peer>,
                                  net: Peer -> Net, local: Peer -> seq<Peer>)
    requires DistinctNodes(all) && p in all && h.Keys == set x | x in all :: x.key
    requires GoodPublisher(p, k, all, buffer)
    requires var s := Publish(h, p, buffer, k, data, force);
      forall r :: r in all ==> r.key in s && GoodReader(s, r, k, all, net(r), local(r))
    ensures var s := Publish(h, p, buffer, k, data, force);
      (forall r :: r in all ==> Get(s[r.key], r, k, net(r), local(r)) == Some(data)) <==>
      NoStaleCopyElsewhere(h, p, k, data, force, all, buffer)
  {
    hide Lookup, StoreAll, Publish, GoodReader;
    var s := Publish(h, p, buffer, k, data, force);
    PublishAt(h, p, buffer, k, data, force, p.key);
    if NoStaleCopyElsewhere(h, p, k, data, force, all, buffer) {
      forall node | node in s && k in s[node] ensures s[node][k] == data {
        var x :| x in all && x.key == node;
        PublishAt(h, p, buffer, k, data, force, node);
        if x in buffer {
          assert node in KeysOf(buffer);
        }
      }
      forall r | r in all ensures Get(s[r.key], r, k, net(r), local(r)) == Some(data) {
        GetAfterPublish(h, p, r, k, data, force, all, buffer, net(r), local(r));
      }
    } else {
      var x :| x in all && x.key in h && k in h[x.key] && h[x.key][k] != data && x != p && !(force && x in buffer);
      PublishAt(h, p, buffer, k, data, force, x.key);
      if x.key in KeysOf(buffer) {
        var y :| y in buffer && y.key == x.key;
        assert y == x;
      }
      assert Get(s[x.key], x, k, net(x), local(x)) != Some(data);
    }
  }

  // ---------- In a network of complete tables ----------

  lemma CompleteNetworkFindsNearest(q: Query, x: Peer, k: Key, all: set<Peer>, net: Net, local: seq<Peer>)
    requires Network(all) && x in all
    requires AnswersFromTables(q, x, net, k, all) && TableReply(q, x, k, all, local)
    ensures Live(x, net, all - {x}) && FindsNearest(x, k, all, net, local)
    ensures forall y :: y in local ==> y in all - {x}
  {
    hide TableReply, AnswersFromTables, IsNearestNode, Healthy, Live, Reaches, Network;
    CompleteNetworkIsLive(q, x, k, all, net);
    ReplyLeads(q, x, k, all, local);
    forall g | IsNearestNode(g, k, all) && g != x
      ensures Healthy(x, net, all - {x}, g, Agree(x.key, g.key)) && Reaches(Agree(x.key, g.key), g.key, local)
    {
      CompleteNetworkIsHealthy(q, x, k, all, net, g);
      LocalReaches(q, x, k, all, local, g);
    }
  }

  /**
   Where replies come from good tables that point on, the lookup of a publish throws
   exactly if the publisher's own table answers with nobody; else the nearest node of
   all is a target or the publisher itself.
   */
  lemma CompleteNetworkPublishes(q: Query, p: Peer, k: Key, all: set<Peer>, find: Net, again: Net, local: seq<Peer>)
    requires Network(all) && p in all && NoValues(find) && TableReply(q, p, k, all, local)
    requires AnswersFromTables(q, p, find, k, all) && AnswersFromTables(q, p, again, k, all)
    ensures NodeLookup(p, k, find, again, local).Some? <==> local != []
    ensures local != [] ==> GoodPublisher(p, k, all, NodeLookup(p, k, find, again, local).value)
  {
    hide NodeLookup, TableReply, AnswersFromTables, FindsNearest, Live, GoodPublisher;
    if local == [] {
      NodeLookupThrowsOnNobody(p, k, find, again);
    } else {
      CompleteNetworkFindsNearest(q, p, k, all, find, local);
      CompleteNetworkIsLive(q, p, k, all, again);
      LookupMakesGoodPublisher(p, k, all, find, again, local);
    }
  }

  /**
   How the reads after a publish see the network: to every reader each node answers
   from its chunks or from a table of its own, and so does the reader's own table.
   */
  ghost predicate ReadsFromTables(q: Query, s: Chunks, k: Key, all: set<Peer>, net: Peer -> Net,
                                  local: Peer -> seq<Peer>) {
    forall r :: r in all ==>
      && TableReply(q, r, k, all, local(r))
      && AnswersFromTables(q, r, net(r), k, all)
      && ServesChunks(s, k, net(r), all - {r})
  }

  /**
   End to end: where replies come from good tables that point on at the time, a chunk
   whose publish does not throw is read back at every node if and only if no node holds
   other data under the key beyond the reach of the publish.
   */
  lemma PointingNetworkReadsBack(q: Query, h: Chunks, p: Peer, k: Key, data: Bytes, force: bool, all: set<Peer>,
                                 find: Net, again: Net, start: seq<Peer>, buffer: seq<Peer>,
                                 net: Peer -> Net, local: Peer -> seq<Peer>)
    requires Network(all) && p in all && h.Keys == set x | x in all :: x.key
    requires NoValues(find) && TableReply(q, p, k, all, start)
    requires AnswersFromTables(q, p, find, k, all) && AnswersFromTables(q, p, again, k, all)
    requires NodeLookup(p, k, find, again, start) == Some(buffer)
    requires ReadsFromTables(q, Publish(h, p, buffer, k, data, force), k, all, net, local)
    ensures var s := Publish(h, p, buffer, k, data, force);
      && (forall r :: r in all ==> r.key in s)
      && ((forall r :: r in all ==> Get(s[r.key], r, k, net(r), local(r)) == Some(data)) <==>
          NoStaleCopyElsewhere(h, p, k, data, force, all, buffer))
  {
    hide NodeLookup, Publish, TableReply, AnswersFromTables, FindsNearest, Live, GoodPublisher, Get, ServesChunks,
      NoStaleCopyElsewhere;
    CompleteNetworkPublishes(q, p, k, all, find, again, start);
    NodeLookupThrowsOnNobody(p, k, find, again);
    var s := Publish(h, p, buffer, k, data, force);
    forall r | r in all ensures r.key in s && GoodReader(s, r, k, all, net(r), local(r)) {
      CompleteNetworkFindsNearest(q, r, k, all, net(r), local(r));
      PublishDomain(h, p, buffer, k, data, force, r.key, all);
    }
    ReadBackEverywhereExactly(h, p, k, data, force, all, buffer, net, local);
  }

  /**
   With the documented query nothing is assumed of lookups but that each reply comes
   from some good table of the node that sends it; and with a second node the publish
   does not throw.
   */
  lemma CompleteNetworkReadsBack(h: Chunks, p: Peer, k: Key, data: Bytes, force: bool, all: set<Peer>,
                                 find: Net, again: Net, own: Trie, net: Peer -> Net, local: Peer -> seq<Peer>)
    requires Network(all) && p in all && all != {p} && h.Keys == set x | x in all :: x.key
    requires NoValues(find) && GoodTable(own, p, all)
    requires AnswersFromTables(Documented, p, find, k, all) && AnswersFromTables(Documented, p, again, k, all)
    ensures var start := Bucketful(Documented, own, k);
      && NodeLookup(p, k, find, again, start).Some?
      && var buffer := NodeLookup(p, k, find, again, start).value;
      var s := Publish(h, p, buffer, k, data, force);
      ReadsFromTables(Documented, s, k, all, net, local) ==>
        && (forall r :: r in all ==> r.key in s)
        && ((forall r :: r in all ==> Get(s[r.key], r, k, net(r), local(r)) == Some(data)) <==>
            NoStaleCopyElsewhere(h, p, k, data, force, all, buffer))
  {
    hide NodeLookup, Publish, Bucketful, AnswersFromTables, GoodPublisher, Get, ServesChunks, TableReply,
      ReadsFromTables, NoStaleCopyElsewhere, Wf, Shallow, Elsewhere, CompleteTable;
    var start := Bucketful(Documented, own, k);
    DocumentedReply(own, p, k, all);
    BucketfulIsEmptyExactly(Documented, own, p, k, all);
    CompleteNetworkPublishes(Documented, p, k, all, find, again, start);
    var buffer := NodeLookup(p, k, find, again, start).value;
    var s := Publish(h, p, buffer, k, data, force);
    if ReadsFromTables(Documented, s, k, all, net, local) {
      PointingNetworkReadsBack(Documented, h, p, k, data, force, all, find, again, start, buffer, net, local);
    }
  }

  /** A list of the query as written from a good table whose leaf of the key is not empty at the time. */
  ghost predicate LeafyTable(x: Peer, k: Key, all: set<Peer>, ps: seq<Peer>) {
    exists t :: GoodTable(t, x, all) && Route(t, 0, k) != [] && ps == Bucketful(AsWritten, t, k)
  }

  ghost predicate AnswersFromLeafyTables(self: Peer, net: Net, k: Key, all: set<Peer>) {
    forall x :: x in all - {self} ==>
      && !net(x).NoAnswer?
      && (net(x).Nodes? ==> LeafyTable(x, k, all, net(x).peers))
  }

  lemma LeafyTableReplies(x: Peer, k: Key, all: set<Peer>, ps: seq<Peer>)
    requires LeafyTable(x, k, all, ps)
    ensures TableReply(AsWritten, x, k, all, ps) && ps != []
  {
    hide Wf, Shallow, Elsewhere, CompleteTable, Bucketful;
    var t :| GoodTable(t, x, all) && Route(t, 0, k) != [] && ps == Bucketful(AsWritten, t, k);
    LeafyReply(t, x, k, all);
  }

  lemma LeafyTablesAnswer(self: Peer, net: Net, k: Key, all: set<Peer>)
    requires AnswersFromLeafyTables(self, net, k, all)
    ensures AnswersFromTables(AsWritten, self, net, k, all)
  {
    hide TableReply, LeafyTable;
    forall x | x in all - {self} && net(x).Nodes? ensures TableReply(AsWritten, x, k, all, net(x).peers) {
      LeafyTableReplies(x, k, all, net(x).peers);
    }
  }

  /**
   With the query as written the same holds if moreover the leaf of the key is not
   empty in any of those tables at the time.  `Starvation.StarvedNetworkThrows` shows
   that something of the kind is needed, `Tables.QueryLeadsExactly` what exactly of each
   table, and `Starvation.UpdateEmptiesTheLeaf` that a call can take it away.
   */
  lemma AsWrittenReadsBack(h: Chunks, p: Peer, k: Key, data: Bytes, force: bool, all: set<Peer>,
                           find: Net, again: Net, start: seq<Peer>, net: Peer -> Net, local: Peer -> seq<Peer>)
    requires Network(all) && p in all && h.Keys == set x | x in all :: x.key
    requires NoValues(find) && LeafyTable(p, k, all, start)
    requires AnswersFromLeafyTables(p, find, k, all) && AnswersFromLeafyTables(p, again, k, all)
    ensures NodeLookup(p, k, find, again, start).Some?
    ensures
      var buffer := NodeLookup(p, k, find, again, start).value;
      var s := Publish(h, p, buffer, k, data, force);
      (forall r :: r in all ==>
        LeafyTable(r, k, all, local(r)) && AnswersFromLeafyTables(r, net(r), k, all) &&
        ServesChunks(s, k, net(r), all - {r})) ==>
        && (forall r :: r in all ==> r.key in s)
        && ((forall r :: r in all ==> Get(s[r.key], r, k, net(r), local(r)) == Some(data)) <==>
            NoStaleCopyElsewhere(h, p, k, data, force, all, buffer))
  {
    hide NodeLookup, Publish, AnswersFromTables, AnswersFromLeafyTables, LeafyTable, TableReply, GoodPublisher, Get,
      ServesChunks, NoStaleCopyElsewhere;
    LeafyTableReplies(p, k, all, start);
    LeafyTablesAnswer(p, find, k, all);
    LeafyTablesAnswer(p, again, k, all);
    CompleteNetworkPublishes(AsWritten, p, k, all, find, again, start);
    var buffer := NodeLookup(p, k, find, again, start).value;
    var s := Publish(h, p, buffer, k, data, force);
    if forall r :: r in all ==>
        LeafyTable(r, k, all, local(r)) && AnswersFromLeafyTables(r, net(r), k, all) &&
        ServesChunks(s, k, net(r), all - {r}) {
      forall r | r in all
        ensures TableReply(AsWritten, r, k, all, local(r)) && AnswersFromTables(AsWritten, r, net(r), k, all)
      {
        LeafyTableReplies(r, k, all, local(r));
        LeafyTablesAnswer(r, net(r), k, all);
      }
      PointingNetworkReadsBack(AsWritten, h, p, k, data, force, all, find, again, start, buffer, net, local);
    }
  }

  lemma PublishDomain(h: Chunks, p: Peer, buffer: seq<Peer>, k: Key, data: Bytes, force: bool, node: Key,
                      all: set<Peer>)
    requires p.key in h && node in h && GoodPublisher(p, k, all, buffer)
    ensures node in Publish(h, p, buffer, k, data, force)
  {
    PublishAt(h, p, buffer, k, data, force, node);
  }
}
