/**
 The chunk store of the file layer as the network keeps it (src/dht/session.cpp:95-144):
 when the sets and gets of sessions at any nodes are those of one store.

 A forced set leaves an earlier publisher with its old copy unless it is among the
 targets, and the client takes a random session for every operation.  The network is
 one store exactly as long as no set leaves such a copy behind.
 */
module Backing {
  import opened Keys
  import opened Tries
  import opened Lookups
  import opened Convergence
  import opened Networks
  import opened Retrieval
  import opened Files

  /** Every copy is the store's, and the node nearest to a key of the store has one. */
  ghost predicate Backs(h: Retrieval.Chunks, all: set<Peer>, st: Store) {
    && h.Keys == (set x | x in all :: x.key)
    && (forall n, k :: n in h && k in h[n] ==> k in st && h[n][k] == st[k])
    && forall k, g :: k in st && IsNearestNode(g, k, all) ==> g.key in h && k in h[g.key]
  }

  /** Reading at any node whose lookups find the nearest node is reading the store. */
  lemma GetRefines(h: Retrieval.Chunks, all: set<Peer>, st: Store, r: Peer, k: Key, net: Net, local: seq<Peer>)
    requires DistinctNodes(all) && r in all && Backs(h, all, st) && GoodReader(h, r, k, all, net, local)
    ensures r.key in h && Retrieval.Get(h[r.key], r, k, net, local) == if k in st then Some(st[k]) else None
  {
    hide Lookup, Healthy, Reaches, IsNearestNode;
    if k !in h[r.key] {
      if k in st {
        var g := NearestExists(k, all);
        NearestIsNode(g, k, all);
        NearestOfOthers(r, k, all, g);
        LookupFindsHeldValue(h, r, k, st[k], net, all - {r}, g, Agree(r.key, g.key), local);
      } else {
        GetIsHonest(h[r.key], r, k, net, local);
      }
    }
  }

  /** A publish leaves the copies of other keys as they are. */
  lemma PublishElsewhere(h: Retrieval.Chunks, p: Peer, buffer: seq<Peer>, op: SetOp, node: Key)
    requires p.key in h && |buffer| <= KBUCKET_MAX && node in h
    ensures var s := Publish(h, p, buffer, op.k, op.data, op.force);
      && s.Keys == h.Keys
      && forall k :: k != op.k ==> (k in s[node] <==> k in h[node]) && (k in h[node] ==> s[node][k] == h[node][k])
  {
    hide StoreAll;
    assert buffer[..|buffer|] == buffer;
    StoreAllAt(h, buffer, op.k, op.data, op.force, node);
    StoreAllAt(h, buffer, op.k, op.data, op.force, p.key);
  }

  lemma NoStaleAgrees(h: Retrieval.Chunks, p: Peer, op: SetOp, all: set<Peer>, buffer: seq<Peer>)
    requires DistinctNodes(all) && p in all && h.Keys == (set x | x in all :: x.key)
    requires GoodPublisher(p, op.k, all, buffer)
    ensures AllAgree(Publish(h, p, buffer, op.k, op.data, op.force), op.k, op.data) <==>
            NoStaleCopyElsewhere(h, p, op.k, op.data, op.force, all, buffer)
  {
    hide StoreAll, Publish, IsNearestNode;
    var s := Publish(h, p, buffer, op.k, op.data, op.force);
    PublishAt(h, p, buffer, op.k, op.data, op.force, p.key);
    if NoStaleCopyElsewhere(h, p, op.k, op.data, op.force, all, buffer) {
      forall node | node in s && op.k in s[node] ensures s[node][op.k] == op.data {
        var x :| x in all && x.key == node;
        PublishAt(h, p, buffer, op.k, op.data, op.force, node);
        if x in buffer {
          assert node in KeysOf(buffer);
        }
      }
    } else {
      var x :| x in all && x.key in h && op.k in h[x.key] && h[x.key][op.k] != op.data &&
        x != p && !(op.force && x in buffer);
      PublishAt(h, p, buffer, op.k, op.data, op.force, x.key);
      if x.key in KeysOf(buffer) {
        var y :| y in buffer && y.key == x.key;
        assert y == x;
      }
    }
  }

  /**
   A set keeps the network one store, now with the new data, if and only if it leaves
   no stale copy behind; if it does leave one, the network is no store at all.
   */
  lemma SetRefinesExactly(h: Retrieval.Chunks, all: set<Peer>, st: Store, p: Peer, op: SetOp, buffer: seq<Peer>)
    requires DistinctNodes(all) && p in all && Backs(h, all, st) && GoodPublisher(p, op.k, all, buffer)
    ensures var s := Publish(h, p, buffer, op.k, op.data, op.force);
      && (Backs(s, all, st[op.k := op.data]) <==> NoStaleCopyElsewhere(h, p, op.k, op.data, op.force, all, buffer))
      && forall other :: Backs(s, all, other) ==> NoStaleCopyElsewhere(h, p, op.k, op.data, op.force, all, buffer)
  {
    hide StoreAll, Publish, IsNearestNode, NoStaleCopyElsewhere, DistinctNodes;
    var s := Publish(h, p, buffer, op.k, op.data, op.force);
    NoStaleAgrees(h, p, op, all, buffer);
    PublishAt(h, p, buffer, op.k, op.data, op.force, p.key);
    assert op.k in s[p.key] && s[p.key][op.k] == op.data;
    forall other | Backs(s, all, other) ensures AllAgree(s, op.k, op.data) {
      assert other[op.k] == s[p.key][op.k];
    }
    if AllAgree(s, op.k, op.data) {
      AgreeingCopies(h, all, st, p, op, buffer);
      NearestHasIt(h, all, st, p, op, buffer);
    }
  }

  lemma AgreeingCopies(h: Retrieval.Chunks, all: set<Peer>, st: Store, p: Peer, op: SetOp, buffer: seq<Peer>)
    requires p in all && Backs(h, all, st) && GoodPublisher(p, op.k, all, buffer)
    requires AllAgree(Publish(h, p, buffer, op.k, op.data, op.force), op.k, op.data)
    ensures var s := Publish(h, p, buffer, op.k, op.data, op.force);
      && s.Keys == h.Keys
      && forall n, k :: n in s && k in s[n] ==> k in st[op.k := op.data] && s[n][k] == st[op.k := op.data][k]
  {
    hide StoreAll, Publish, IsNearestNode;
    var s := Publish(h, p, buffer, op.k, op.data, op.force);
    PublishElsewhere(h, p, buffer, op, p.key);
    forall n, k | n in s && k in s[n] ensures k in st[op.k := op.data] && s[n][k] == st[op.k := op.data][k] {
      PublishElsewhere(h, p, buffer, op, n);
    }
  }

  lemma NearestHasIt(h: Retrieval.Chunks, all: set<Peer>, st: Store, p: Peer, op: SetOp, buffer: seq<Peer>)
    requires p in all && Backs(h, all, st) && GoodPublisher(p, op.k, all, buffer)
    ensures var s := Publish(h, p, buffer, op.k, op.data, op.force);
      forall k, g :: k in st[op.k := op.data] && IsNearestNode(g, k, all) ==> g.key in s && k in s[g.key]
  {
    hide StoreAll, Publish, IsNearestNode;
    var s := Publish(h, p, buffer, op.k, op.data, op.force);
    forall k, g | k in st[op.k := op.data] && IsNearestNode(g, k, all) ensures g.key in s && k in s[g.key] {
      NearestIsNode(g, k, all);
      if k == op.k {
        PublishAt(h, p, buffer, op.k, op.data, op.force, g.key);
        if g != p {
          assert g in buffer && g.key in KeysOf(buffer);
        }
      } else {
        PublishElsewhere(h, p, buffer, op, g.key);
      }
    }
  }

  // ---------- Runs of sets ----------

  /** The session that publishes a set and the targets its lookup returns. */
  datatype Via = Via(p: Peer, buffer: seq<Peer>)

  /** The copies in the network after these sets, each through its own session. */
  function Drive(h: Retrieval.Chunks, ops: seq<SetOp>, vias: seq<Via>): Retrieval.Chunks
    requires |vias| == |ops|
  {
    if ops == [] then h
    else
      var n := |ops| - 1;
      DriveOne(Drive(h, ops[..n], vias[..n]), ops[n], vias[n])
  }

  function DriveOne(h: Retrieval.Chunks, op: SetOp, v: Via): Retrieval.Chunks {
    if v.p.key in h then Publish(h, v.p, v.buffer, op.k, op.data, op.force) else h
  }

  /** Every set takes effect. */
  function AllTake(): Choice {
    _ => true
  }

  function Replay(st: Store, ops: seq<SetOp>): Store {
    SetAll(st, ops, AllTake())
  }

  ghost predicate GoodVias(all: set<Peer>, ops: seq<SetOp>, vias: seq<Via>) {
    && |vias| == |ops|
    && forall i :: 0 <= i < |ops| ==> vias[i].p in all && GoodPublisher(vias[i].p, ops[i].k, all, vias[i].buffer)
  }

  /** The i-th set leaves no stale copy behind. */
  ghost predicate Clears(h: Retrieval.Chunks, all: set<Peer>, ops: seq<SetOp>, vias: seq<Via>, i: nat)
    requires i < |ops| == |vias|
  {
    NoStaleCopyElsewhere(Drive(h, ops[..i], vias[..i]), vias[i].p, ops[i].k, ops[i].data, ops[i].force,
                         all, vias[i].buffer)
  }

  /** After the first i sets the network is the store that those sets make. */
  ghost predicate BacksAfter(h: Retrieval.Chunks, all: set<Peer>, st: Store, ops: seq<SetOp>, vias: seq<Via>, i: nat)
    requires i <= |ops| == |vias|
  {
    Backs(Drive(h, ops[..i], vias[..i]), all, Replay(st, ops[..i]))
  }

  lemma BacksStep(h: Retrieval.Chunks, all: set<Peer>, st: Store, ops: seq<SetOp>, vias: seq<Via>, i: nat)
    requires DistinctNodes(all) && GoodVias(all, ops, vias) && i < |ops|
    requires BacksAfter(h, all, st, ops, vias, i)
    ensures BacksAfter(h, all, st, ops, vias, i + 1) <==> Clears(h, all, ops, vias, i)
  {
    hide Publish, GoodPublisher, DistinctNodes, NoStaleCopyElsewhere, IsNearestNode;
    assert ops[..i + 1][..i] == ops[..i] && vias[..i + 1][..i] == vias[..i];
    var before := Drive(h, ops[..i], vias[..i]);
    assert vias[i].p.key in before;
    SetRefinesExactly(before, all, Replay(st, ops[..i]), vias[i].p, ops[i], vias[i].buffer);
  }

  lemma RunIsBackedWhenClear(h: Retrieval.Chunks, all: set<Peer>, st: Store, ops: seq<SetOp>, vias: seq<Via>)
    requires DistinctNodes(all) && GoodVias(all, ops, vias) && Backs(h, all, st)
    ensures (forall i :: 0 <= i <= |ops| ==> BacksAfter(h, all, st, ops, vias, i)) <==>
            (forall i :: 0 <= i < |ops| ==> Clears(h, all, ops, vias, i))
  {
    hide BacksAfter, Clears, DistinctNodes, GoodPublisher;
    StartIsBacked(h, all, st, ops, vias);
    if forall i :: 0 <= i < |ops| ==> Clears(h, all, ops, vias, i) {
      for j := 0 to |ops|
        invariant forall i :: 0 <= i <= j ==> BacksAfter(h, all, st, ops, vias, i)
      {
        BacksStep(h, all, st, ops, vias, j);
      }
    }
    if forall i :: 0 <= i <= |ops| ==> BacksAfter(h, all, st, ops, vias, i) {
      forall i: nat | i < |ops| ensures Clears(h, all, ops, vias, i) {
        assert BacksAfter(h, all, st, ops, vias, i + 1);
        BacksStep(h, all, st, ops, vias, i);
      }
    }
  }

  lemma StartIsBacked(h: Retrieval.Chunks, all: set<Peer>, st: Store, ops: seq<SetOp>, vias: seq<Via>)
    requires |ops| == |vias| && Backs(h, all, st)
    ensures BacksAfter(h, all, st, ops, vias, 0)
  {
    assert ops[..0] == [] && vias[..0] == [];
  }

  // ---------- Before the run ----------

  /** Node `x` has been sent, or has published, one of these sets of the key, or had a copy from the start. */
  ghost predicate Reached(h: Retrieval.Chunks, ops: seq<SetOp>, vias: seq<Via>, x: Peer, k: Key)
    requires |ops| == |vias|
  {
    || (x.key in h && k in h[x.key])
    || exists j :: 0 <= j < |ops| && ops[j].k == k && (vias[j].p == x || x in vias[j].buffer)
  }

  /**
   The i-th set, by what is known before the run: if it changes what the key last had,
   every node reached with the key before is the publisher now, or a target of force.
   */
  ghost predicate ClearsAhead(h: Retrieval.Chunks, all: set<Peer>, st: Store, ops: seq<SetOp>, vias: seq<Via>, i: nat)
    requires i < |ops| == |vias|
  {
    var op, v, was := ops[i], vias[i], Replay(st, ops[..i]);
    op.k in was && was[op.k] != op.data ==>
      forall x :: x in all && Reached(h, ops[..i], vias[..i], x, op.k) ==> x == v.p || (op.force && x in v.buffer)
  }

  /** The nodes that have a key are those that were reached with it. */
  lemma {:induction false} HoldersAreReached(h: Retrieval.Chunks, all: set<Peer>, ops: seq<SetOp>, vias: seq<Via>,
                                             x: Peer, k: Key)
    requires DistinctNodes(all) && GoodVias(all, ops, vias) && x in all && h.Keys == set y | y in all :: y.key
    ensures Drive(h, ops, vias).Keys == h.Keys
    ensures k in Drive(h, ops, vias)[x.key] <==> Reached(h, ops, vias, x, k)
  {
    if ops != [] {
      hide Publish, IsNearestNode;
      var n := |ops| - 1;
      var op, v := ops[n], vias[n];
      HoldersAreReached(h, all, ops[..n], vias[..n], x, k);
      var before := Drive(h, ops[..n], vias[..n]);
      PublishAt(before, v.p, v.buffer, op.k, op.data, op.force, x.key);
      PublishElsewhere(before, v.p, v.buffer, op, x.key);
      SameNode(all, x, v.p);
      TargetByKey(all, x, v.buffer);
      ReachedMore(h, ops, vias, x, k);
    }
  }

  lemma SameNode(all: set<Peer>, x: Peer, y: Peer)
    requires DistinctNodes(all) && x in all && y in all
    ensures x.key == y.key <==> x == y
  {
  }

  lemma TargetByKey(all: set<Peer>, x: Peer, buffer: seq<Peer>)
    requires DistinctNodes(all) && x in all && forall y :: y in buffer ==> y in all
    ensures x.key in KeysOf(buffer) <==> x in buffer
  {
  }

  lemma ReachedMore(h: Retrieval.Chunks, ops: seq<SetOp>, vias: seq<Via>, x: Peer, k: Key)
    requires |ops| == |vias| && ops != []
    ensures var n := |ops| - 1;
      Reached(h, ops, vias, x, k) <==>
      Reached(h, ops[..n], vias[..n], x, k) || (ops[n].k == k && (vias[n].p == x || x in vias[n].buffer))
  {
    var n := |ops| - 1;
    assert forall j :: 0 <= j < n ==> ops[..n][j] == ops[j] && vias[..n][j] == vias[j];
  }

  /** While the network is one store, what is known ahead decides the next set. */
  lemma ClearsAheadDecides(h: Retrieval.Chunks, all: set<Peer>, st: Store, ops: seq<SetOp>, vias: seq<Via>, i: nat)
    requires DistinctNodes(all) && GoodVias(all, ops, vias) && i < |ops|
    requires h.Keys == (set y | y in all :: y.key) && BacksAfter(h, all, st, ops, vias, i)
    ensures Clears(h, all, ops, vias, i) <==> ClearsAhead(h, all, st, ops, vias, i)
  {
    hide Drive, Publish, Reached, GoodPublisher, DistinctNodes, IsNearestNode, Replay;
    forall x | x in all
      ensures ops[i].k in Drive(h, ops[..i], vias[..i])[x.key] <==> Reached(h, ops[..i], vias[..i], x, ops[i].k)
    {
      HoldersAreReached(h, all, ops[..i], vias[..i], x, ops[i].k);
    }
  }

  /**
   Whole runs: through sessions at any nodes, the network is all along the one store
   that the sets make, if and only if every set that changes a key is published by, or
   sent by force to, every node that a copy of the key has reached before.
   */
  lemma RunIsBackedExactly(h: Retrieval.Chunks, all: set<Peer>, st: Store, ops: seq<SetOp>, vias: seq<Via>)
    requires DistinctNodes(all) && GoodVias(all, ops, vias) && Backs(h, all, st)
    ensures (forall i :: 0 <= i <= |ops| ==> BacksAfter(h, all, st, ops, vias, i)) <==>
            (forall i :: 0 <= i < |ops| ==> ClearsAhead(h, all, st, ops, vias, i))
  {
    hide BacksAfter, Clears, ClearsAhead, DistinctNodes, GoodPublisher;
    StartIsBacked(h, all, st, ops, vias);
    RunIsBackedWhenClear(h, all, st, ops, vias);
    if forall i :: 0 <= i <= |ops| ==> BacksAfter(h, all, st, ops, vias, i) {
      forall i: nat | i < |ops| ensures ClearsAhead(h, all, st, ops, vias, i) {
        ClearsAheadDecides(h, all, st, ops, vias, i);
      }
    }
    if forall i :: 0 <= i < |ops| ==> ClearsAhead(h, all, st, ops, vias, i) {
      for j := 0 to |ops|
        invariant forall i :: 0 <= i <= j ==> BacksAfter(h, all, st, ops, vias, i)
      {
        ClearsAheadDecides(h, all, st, ops, vias, j);
        BacksStep(h, all, st, ops, vias, j);
      }
    }
  }

  // ---------- One session ----------

  /** Every set goes through one session, whose targets for a key do not change. */
  ghost predicate OneSession(ops: seq<SetOp>, vias: seq<Via>, p: Peer, targets: Key -> seq<Peer>) {
    |vias| == |ops| && forall i :: 0 <= i < |ops| ==> vias[i] == Via(p, targets(ops[i].k))
  }

  /** The i-th set changes what its key last had. */
  ghost predicate Changes(st: Store, ops: seq<SetOp>, i: nat)
    requires i < |ops|
  {
    var was := Replay(st, ops[..i]);
    ops[i].k in was && was[ops[i].k] != ops[i].data
  }

  /** Copies from before of a key that the i-th set changes are at that session or its targets. */
  ghost predicate WithinReach(h: Retrieval.Chunks, all: set<Peer>, st: Store, ops: seq<SetOp>, p: Peer,
                              targets: Key -> seq<Peer>, i: nat)
    requires i < |ops|
  {
    Changes(st, ops, i) ==>
      forall x :: x in all && x.key in h && ops[i].k in h[x.key] ==> x == p || x in targets(ops[i].k)
  }

  lemma OneSessionClears(h: Retrieval.Chunks, all: set<Peer>, st: Store, ops: seq<SetOp>, vias: seq<Via>,
                         p: Peer, targets: Key -> seq<Peer>, i: nat)
    requires OneSession(ops, vias, p, targets) && i < |ops| && WithinReach(h, all, st, ops, p, targets, i)
    ensures ClearsAhead(h, all, st, ops, vias, i) <==>
      (Changes(st, ops, i) ==>
        ops[i].force || forall x :: x in all && Reached(h, ops[..i], vias[..i], x, ops[i].k) ==> x == p)
  {
    hide Replay;
    if Changes(st, ops, i) {
      forall x | x in all && Reached(h, ops[..i], vias[..i], x, ops[i].k) ensures x == p || x in targets(ops[i].k) {
      }
    }
  }

  /**
   For one session with unchanging targets: every set that changes a key is forced, or
   no other node has been reached with the key.
   */
  lemma OneSessionIsBackedExactly(h: Retrieval.Chunks, all: set<Peer>, st: Store, ops: seq<SetOp>, vias: seq<Via>,
                                  p: Peer, targets: Key -> seq<Peer>)
    requires DistinctNodes(all) && GoodVias(all, ops, vias) && Backs(h, all, st)
    requires OneSession(ops, vias, p, targets)
    requires forall i :: 0 <= i < |ops| ==> WithinReach(h, all, st, ops, p, targets, i)
    ensures (forall i :: 0 <= i <= |ops| ==> BacksAfter(h, all, st, ops, vias, i)) <==>
            (forall i :: 0 <= i < |ops| && Changes(st, ops, i) ==>
              ops[i].force || forall x :: x in all && Reached(h, ops[..i], vias[..i], x, ops[i].k) ==> x == p)
  {
    hide BacksAfter, DistinctNodes, GoodPublisher, Backs, ClearsAhead, Changes, Reached, WithinReach, OneSession;
    RunIsBackedExactly(h, all, st, ops, vias);
    forall i: nat | i < |ops|
      ensures ClearsAhead(h, all, st, ops, vias, i) <==>
        (Changes(st, ops, i) ==>
          ops[i].force || forall x :: x in all && Reached(h, ops[..i], vias[..i], x, ops[i].k) ==> x == p)
    {
      OneSessionClears(h, all, st, ops, vias, p, targets, i);
    }
  }
}
