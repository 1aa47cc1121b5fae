/**
 Convergence of the iterative lookup in a static network whose nodes all answer
 and know the subtrees they should (Maymounkov and Mazieres 2002, sections 2.3-2.4).

 Each round either already has the closest node `g` first, or its new first
 candidate shares at least one more leading bit with `g`, so KEYBITS rounds suffice.
 */
module Convergence {
  import opened Keys
  import opened Tries
  import opened Queries
  import opened Lookups
  import opened LookupFacts

  /** The list names a node with more leading bits of `g` than `x` has (or `x` is `g`). */
  ghost predicate Towards(x: Key, g: Key, list: seq<Peer>) {
    x == g || exists y :: y in list && Agree(y.key, g) > Agree(x, g)
  }

  /** Every node answers, with the value or with nodes of the network (the requester dropped). */
  ghost predicate Live(self: Peer, net: Net, nodes: set<Peer>) {
    forall x :: x in nodes ==>
      match net(x)
      case NoAnswer => false
      case Value(_) => true
      case Nodes(ps) => forall y :: y in Keep(self, ps) ==> y in nodes
  }

  /**
   The network as `self` sees it on the way to node `g`: it is live, and the lists
   of the nodes that share more than `base` leading bits with `g` lead towards `g`,
   even after the requester is dropped.  With `base` -1 that is every node.
   */
  ghost predicate Healthy(self: Peer, net: Net, nodes: set<Peer>, g: Peer, base: int) {
    && Live(self, net, nodes)
    && forall x :: x in nodes && net(x).Nodes? && Agree(x.key, g.key) > base ==>
         Towards(x.key, g.key, Keep(self, net(x).peers))
  }

  /** The list names a node that shares more than `base` leading bits with `g`. */
  ghost predicate Reaches(base: int, g: Key, list: seq<Peer>) {
    exists y :: y in list && Agree(y.key, g) > base
  }

  /** No two nodes share a key. */
  ghost predicate DistinctNodes(all: set<Peer>) {
    forall x, y :: x in all && y in all && x.key == y.key ==> x == y
  }

  /** `g` is the node closest to `k`. */
  ghost predicate IsNearestNode(g: Peer, k: Key, nodes: set<Peer>) {
    g in nodes && forall z :: z in nodes ==> Dist(k, g.key) <= Dist(k, z.key)
  }

  /**
   Kademlia's condition on tables: the list names, for every other node `z` in a
   sibling subtree of `x` on the side of the search key, some node of that subtree.
   */
  ghost predicate KnowsCloserSubtrees(x: Key, k: Key, nodes: set<Peer>, list: seq<Peer>) {
    forall z :: z in nodes && z.key != x && z.key[Agree(x, z.key)] == k[Agree(x, z.key)] ==>
      exists y :: y in list && Agree(y.key, z.key) > Agree(x, z.key)
  }

  /** A node that knows its closer subtrees leads towards the node closest to the search key. */
  lemma CloserSubtreesLead(x: Peer, k: Key, nodes: set<Peer>, g: Peer, list: seq<Peer>)
    requires IsNearestNode(g, k, nodes) && x in nodes && KnowsCloserSubtrees(x.key, k, nodes, list)
    ensures Towards(x.key, g.key, list)
  {
    if x.key != g.key {
      DistOrder(k, x.key, g.key);
    }
  }

  /** A node that is not the closest names one that shares more bits with the closest. */
  lemma ReplyAdvances(self: Peer, net: Net, nodes: set<Peer>, g: Peer, base: int, x: Peer) returns (y: Peer)
    requires Healthy(self, net, nodes, g, base)
    requires x in nodes && Agree(x.key, g.key) > base && x.key != g.key && net(x).Nodes?
    ensures y in Keep(self, net(x).peers) && y in nodes && Agree(y.key, g.key) > Agree(x.key, g.key)
  {
    y :| y in Keep(self, net(x).peers) && Agree(y.key, g.key) > Agree(x.key, g.key);
  }

  // ---------- Sweeps in a healthy network ----------

  /** All candidates and all peers asked are nodes, and those asked sent lists. */
  ghost predicate OnTrack(net: Net, nodes: set<Peer>, list: seq<Peer>, asked: seq<Peer>) {
    && (forall x :: x in list ==> x in nodes)
    && (forall x :: x in asked ==> x in nodes && net(x).Nodes?)
  }

  lemma {:induction false} SweepOnTrack(self: Peer, net: Net, nodes: set<Peer>,
                                        list: seq<Peer>, j: nat, quota: nat, asked: seq<Peer>)
    requires Live(self, net, nodes) && OnTrack(net, nodes, list, asked) && j <= |list|
    ensures var s := Sweep(self, net, list, j, quota, asked);
      s.found == None ==> OnTrack(net, nodes, s.list, s.asked)
    decreases quota, |list| - j
  {
    hide Keep, Towards;
    if j < |list| && quota > 0 {
      if list[j].key in KeysOf(asked) {
        SweepOnTrack(self, net, nodes, list, j + 1, quota, asked);
      } else {
        assert list[j] in nodes;
        match net(list[j])
        case Nodes(ps) =>
          SweepOnTrack(self, net, nodes, list + Keep(self, ps), j + 1, quota - 1, asked + [list[j]]);
        case Value(data) =>
      }
    }
  }

  /** The first candidate, if not asked before, is asked now, and its reply joins the list. */
  lemma SweepAsksHead(self: Peer, net: Net, nodes: set<Peer>, list: seq<Peer>, asked: seq<Peer>)
    requires Live(self, net, nodes) && OnTrack(net, nodes, list, asked)
    requires list != [] && list[0].key !in KeysOf(asked)
    ensures var s := Sweep(self, net, list, 0, Quota(list), asked);
      s.found == None ==>
        && net(list[0]).Nodes? && list[0].key in KeysOf(s.asked)
        && forall y :: y in Keep(self, net(list[0]).peers) ==> y in s.list
  {
    hide Keep, Towards;
    assert list[0] in nodes;
    if net(list[0]).Nodes? {
      var more, ps := asked + [list[0]], Keep(self, net(list[0]).peers);
      var s := Sweep(self, net, list + ps, 1, Quota(list) - 1, more);
      SweepExtends(self, net, list + ps, 1, Quota(list) - 1, more);
      Prefix(more, s.asked);
      Prefix(list + ps, s.list);
      assert list[0] in more;
      assert forall y :: y in ps ==> y in list + ps;
    }
  }

  lemma Prefix(a: seq<Peer>, b: seq<Peer>)
    requires a <= b
    ensures forall x :: x in a ==> x in b
    ensures KeysOf(a) <= KeysOf(b)
  {
  }

  /** The state of a lookup between two rounds. */
  ghost predicate RoundState(self: Peer, k: Key, net: Net, nodes: set<Peer>, start: set<Key>,
                             list: seq<Peer>, asked: seq<Peer>) {
    && list != [] && OnTrack(net, nodes, list, asked)
    && Covers(list, k, Gathered(self, net, start, asked))
    && forall u :: u in Gathered(self, net, start, asked) ==> Dist(k, list[0].key) <= Dist(k, u)
  }

  /** One round: the closest node is asked, or the first candidate shares more bits with it. */
  lemma RoundAdvances(self: Peer, k: Key, net: Net, nodes: set<Peer>, g: Peer, base: int, start: set<Key>,
                      list: seq<Peer>, asked: seq<Peer>)
    requires Healthy(self, net, nodes, g, base) && IsNearestNode(g, k, nodes)
    requires RoundState(self, k, net, nodes, start, list, asked) && Agree(list[0].key, g.key) > base
    ensures var s := Sweep(self, net, list, 0, Quota(list), asked);
      var best := Best(s.list, k);
      s.found == None ==>
        && RoundState(self, k, net, nodes, start, best, s.asked)
        && (if list[0].key == g.key then best[0].key == g.key && g.key in KeysOf(s.asked)
            else Agree(best[0].key, g.key) > Agree(list[0].key, g.key)
                 && Dist(k, best[0].key) < Dist(k, list[0].key))
  {
    hide Sweep, Best, Gathered, Covers, Live;
    var s := Sweep(self, net, list, 0, Quota(list), asked);
    var best := Best(s.list, k);
    if s.found == None {
      RoundKeepsState(self, k, net, nodes, start, list, asked);
      var c := list[0];
      assert c in list && best[0] in best;
      if c.key == g.key {
        HeadIsAsked(self, net, nodes, list, asked);
        HeadIsNearest(k, nodes, g, s.list, c);
      } else {
        var y := HeadAdvances(self, k, net, nodes, g, base, start, list, asked);
        BestHead(s.list, k, y.key);
        assert Dist(k, g.key) <= Dist(k, best[0].key);
        Sandwich(k, g.key, best[0].key, y.key);
        BestHead(s.list, k, c.key);
        DistInjective(k, best[0].key, c.key);
      }
    }
  }

  lemma HeadIsAsked(self: Peer, net: Net, nodes: set<Peer>, list: seq<Peer>, asked: seq<Peer>)
    requires Live(self, net, nodes) && OnTrack(net, nodes, list, asked) && list != []
    ensures var s := Sweep(self, net, list, 0, Quota(list), asked);
      s.found == None ==> list[0].key in KeysOf(s.asked)
  {
    if list[0].key !in KeysOf(asked) {
      SweepAsksHead(self, net, nodes, list, asked);
    } else {
      SweepExtends(self, net, list, 0, Quota(list), asked);
      Prefix(asked, Sweep(self, net, list, 0, Quota(list), asked).asked);
    }
  }

  lemma HeadIsNearest(k: Key, nodes: set<Peer>, g: Peer, list: seq<Peer>, c: Peer)
    requires IsNearestNode(g, k, nodes) && (forall x :: x in list ==> x in nodes)
    requires c in list && c.key == g.key
    ensures Best(list, k) != [] && Best(list, k)[0].key == g.key
  {
    BestHead(list, k, c.key);
    DistInjective(k, Best(list, k)[0].key, g.key);
  }

  /** If the first candidate is not the closest node, the round puts a node with more bits of it on the list. */
  lemma HeadAdvances(self: Peer, k: Key, net: Net, nodes: set<Peer>, g: Peer, base: int, start: set<Key>,
                     list: seq<Peer>, asked: seq<Peer>) returns (y: Peer)
    requires Healthy(self, net, nodes, g, base) && IsNearestNode(g, k, nodes)
    requires RoundState(self, k, net, nodes, start, list, asked) && Agree(list[0].key, g.key) > base
    requires list[0].key != g.key
    requires Sweep(self, net, list, 0, Quota(list), asked).found == None
    ensures y in Sweep(self, net, list, 0, Quota(list), asked).list
    ensures Agree(y.key, g.key) > Agree(list[0].key, g.key)
  {
    var c := list[0];
    assert c in list;
    if c.key !in KeysOf(asked) {
      SweepAsksHead(self, net, nodes, list, asked);
      y := ReplyAdvances(self, net, nodes, g, base, c);
    } else {
      var q :| q in asked && q.key == c.key;
      y := ReplyAdvances(self, net, nodes, g, base, q);
      GatheredHas(self, net, start, asked, q);
      assert y.key in ReplyKeys(self, net(q));
      assert Dist(k, g.key) <= Dist(k, c.key) <= Dist(k, y.key);
      Sandwich(k, g.key, c.key, y.key);
      assert false;
    }
  }

  lemma RoundKeepsState(self: Peer, k: Key, net: Net, nodes: set<Peer>, start: set<Key>,
                        list: seq<Peer>, asked: seq<Peer>)
    requires Live(self, net, nodes)
    requires RoundState(self, k, net, nodes, start, list, asked)
    requires Sweep(self, net, list, 0, Quota(list), asked).found == None
    ensures var s := Sweep(self, net, list, 0, Quota(list), asked);
      RoundState(self, k, net, nodes, start, Best(s.list, k), s.asked)
    ensures list[0] in Sweep(self, net, list, 0, Quota(list), asked).list
    ensures forall x :: x in Sweep(self, net, list, 0, Quota(list), asked).list ==> x in nodes
  {
    hide Sweep, Best, Gathered, Covers, Live, IsTop;
    var s := Sweep(self, net, list, 0, Quota(list), asked);
    var best, heard := Best(s.list, k), Gathered(self, net, start, s.asked);
    SweepOnTrack(self, net, nodes, list, 0, Quota(list), asked);
    SweepExtends(self, net, list, 0, Quota(list), asked);
    SweepCovers(self, k, net, start, list, 0, Quota(list), asked);
    Prefix(list, s.list);
    assert list[0] in list;
    BestHead(s.list, k, list[0].key);
    BestIsTop(s.list, k, heard);
    var b := BestIsTrimmed(s.list, k);
    TopCovers(best, k, heard);
    forall u | u in heard ensures Dist(k, best[0].key) <= Dist(k, u) {
      TopHead(best, k, heard, u);
    }
  }

  lemma TopHead(r: seq<Peer>, k: Key, s: set<Key>, u: Key)
    requires IsTop(r, k, s) && r != [] && u in s
    ensures Dist(k, r[0].key) <= Dist(k, u)
  {
    if u in KeysOf(r) {
      var i := KeyPosition(r, u);
    }
  }

  // ---------- All rounds ----------

  /**
   With `left` rounds to go and at least `KEYBITS - left + e` shared bits, every
   outcome without a value has the closest node first; it was asked if the lookup
   stopped early, and also when the head start `e` is 1.
   */
  lemma {:induction false} RoundsConverge(self: Peer, k: Key, net: Net, nodes: set<Peer>, g: Peer, base: int,
                                          start: set<Key>,
                                          list: seq<Peer>, asked: seq<Peer>, size: nat, minDist: nat, left: nat, e: nat)
    requires Healthy(self, net, nodes, g, base) && IsNearestNode(g, k, nodes) && e <= 1
    requires RoundState(self, k, net, nodes, start, list, asked) && Agree(list[0].key, g.key) > base
    requires minDist >= Dist(k, list[0].key)
    requires if list[0].key == g.key then g.key in KeysOf(asked) || left >= e
             else Agree(list[0].key, g.key) + left >= KEYBITS + e
    ensures match Rounds(self, k, net, list, asked, size, minDist, left)
            case Found(_, _) => true
            case OutOfRange(_) => false
            case Settled(r, a, early) =>
              r != [] && r[0].key == g.key && (early || e == 1 ==> g.key in KeysOf(a))
    decreases left
  {
    hide Sweep, Best, Gathered, RoundState, Covers, Healthy, IsNearestNode, Dist, Agree, KeysOf, Quota;
    assert list != [] by {
      NonEmpty(self, k, net, nodes, start, list, asked);
    }
    if left > 0 {
      var s := Sweep(self, net, list, 0, Quota(list), asked);
      RoundAdvances(self, k, net, nodes, g, base, start, list, asked);
      if s.found == None {
        var best := Best(s.list, k);
        NonEmpty(self, k, net, nodes, start, best, s.asked);
        var d := Dist(k, best[0].key);
        if !(|best| <= size && d >= minDist) {
          RoundsConverge(self, k, net, nodes, g, base, start, best, s.asked, |best|, d, left - 1, e);
        }
      }
    }
  }

  lemma NonEmpty(self: Peer, k: Key, net: Net, nodes: set<Peer>, start: set<Key>, list: seq<Peer>, asked: seq<Peer>)
    requires RoundState(self, k, net, nodes, start, list, asked)
    ensures list != []
  {
  }

  /** The state in which the rounds begin. */
  lemma FirstRound(self: Peer, k: Key, net: Net, nodes: set<Peer>, start: seq<Peer>, local: seq<Peer>)
    requires start + local != [] && forall x :: x in start + local ==> x in nodes
    ensures var list := Sort(start + local, k);
      && RoundState(self, k, net, nodes, KeysOf(start + local), list, [])
      && MinDist(k, local) >= Dist(k, list[0].key)
      && forall y :: y in start + local ==> Dist(k, list[0].key) <= Dist(k, y.key)
  {
    var all := start + local;
    var list := Sort(all, k);
    SortMembers(all, k);
    SortSorts(all, k);
    forall u | u in KeysOf(all) ensures Dist(k, list[0].key) <= Dist(k, u) {
      var i := KeyPosition(list, u);
    }
    assert forall y :: y in local ==> y in all;
    MinDistIsMin(k, local, Dist(k, list[0].key)) by {
      NumBound(Xor(k, list[0].key));
    }
  }

  lemma {:induction false} MinDistIsMin(k: Key, local: seq<Peer>, d: nat)
    requires d < Pow2(KEYBITS) && forall y :: y in local ==> d <= Dist(k, y.key)
    ensures MinDist(k, local) >= d
  {
    if local != [] {
      MinDistIsMin(k, local[..|local| - 1], d);
      assert local[|local| - 1] in local;
    }
  }

  /**
   Convergence within the cap: whatever a lookup without a value settles on, the
   globally closest other node comes first.  That node has been asked if the lookup
   settled because a round brought nothing new, and also if it set out with a peer
   that shares at least one bit with it.
   */
  lemma LookupConverges(self: Peer, k: Key, net: Net, nodes: set<Peer>, g: Peer, base: int, start: seq<Peer>,
                        local: seq<Peer>)
    requires Healthy(self, net, nodes, g, base) && IsNearestNode(g, k, nodes)
    requires Reaches(base, g.key, start + local) && forall x :: x in start + local ==> x in nodes
    ensures match Lookup(self, k, net, start, local)
            case Found(_, _) => true
            case OutOfRange(_) => false
            case Settled(r, a, early) =>
              r != [] && r[0].key == g.key && (early || base >= 0 ==> g.key in KeysOf(a))
  {
    var y :| y in start + local && Agree(y.key, g.key) > base;
    hide Healthy, RoundState, Sort, MinDist, Reaches;
    var list := Sort(start + local, k);
    FirstRound(self, k, net, nodes, start, local);
    NonEmpty(self, k, net, nodes, KeysOf(start + local), list, []);
    assert list[0] in nodes by {
      SortMembers(start + local, k);
      assert list[0] in list;
    }
    Sandwich(k, g.key, list[0].key, y.key);
    RoundsConverge(self, k, net, nodes, g, base, KeysOf(start + local), list, [], |start|, MinDist(k, local),
                   MAX_LOOKUP_ITERS, if base >= 0 then 1 else 0);
  }

  lemma {:induction false} FinalPassExtends(self: Peer, again: Net, list: seq<Peer>, i: nat, n: nat)
    requires i <= n <= |list|
    ensures list <= FinalPass(self, again, list, i, n)
    decreases n - i
  {
    if i < n {
      match again(list[i])
      case Nodes(ps) => FinalPassExtends(self, again, list + Keep(self, ps), i + 1, n);
      case _ => FinalPassExtends(self, again, list, i + 1, n);
    }
  }

  lemma {:induction false} FinalPassStays(self: Peer, again: Net, nodes: set<Peer>, list: seq<Peer>, i: nat, n: nat)
    requires Live(self, again, nodes) && i <= n <= |list| && forall x :: x in list ==> x in nodes
    ensures forall x :: x in FinalPass(self, again, list, i, n) ==> x in nodes
    decreases n - i
  {
    if i < n {
      assert list[i] in nodes;
      match again(list[i])
      case Nodes(ps) =>
        assert forall y :: y in Keep(self, ps) ==> y in nodes;
        hide Keep, Live, Towards;
        FinalPassStays(self, again, nodes, list + Keep(self, ps), i + 1, n);
      case Value(_) =>
        hide Keep, Live, Towards;
        FinalPassStays(self, again, nodes, list, i + 1, n);
    }
  }

  lemma {:induction false} RoundsStayOnTrack(self: Peer, k: Key, net: Net, nodes: set<Peer>, list: seq<Peer>,
                                             asked: seq<Peer>,
                                             size: nat, minDist: nat, left: nat)
    requires Live(self, net, nodes) && OnTrack(net, nodes, list, asked)
    ensures var o := Rounds(self, k, net, list, asked, size, minDist, left);
      o.Settled? ==> OnTrack(net, nodes, o.list, o.asked)
    decreases left
  {
    hide Sweep, Best, Live;
    if left > 0 {
      var s := Sweep(self, net, list, 0, Quota(list), asked);
      SweepOnTrack(self, net, nodes, list, 0, Quota(list), asked);
      var b := BestIsTrimmed(s.list, k);
      var best := Best(s.list, k);
      if s.found == None && best != [] {
        RoundsStayOnTrack(self, k, net, nodes, best, s.asked, |best|, Dist(k, best[0].key), left - 1);
      }
    }
  }

  /** `find_node` asks for peers only. */
  ghost predicate NoValues(net: Net) {
    forall x :: !net(x).Value?
  }

  /** `node_lookup` in a live network ends with nodes of that network. */
  lemma NodeLookupStays(self: Peer, k: Key, net: Net, again: Net, nodes: set<Peer>, local: seq<Peer>)
    requires Live(self, net, nodes) && Live(self, again, nodes) && NoValues(net)
    requires local != [] && forall x :: x in local ==> x in nodes
    ensures Lookup(self, k, net, [], local).Settled?
    ensures match NodeLookup(self, k, net, again, local)
            case None => false
            case Some(r) => |r| <= KBUCKET_MAX && forall x :: x in r ==> x in nodes
  {
    hide Live, Sort, Sweep, Best, FinalPass, Rounds;
    assert [] + local == local;
    LookupIsHonest(self, k, net, [], local);
    LookupThrowsExactly(self, k, net, [], local);
    var o := Lookup(self, k, net, [], local);
    LookupStaysOn(self, k, net, nodes, local);
    assert !o.Found?;
    var all := FinalPass(self, again, o.list, 0, |o.list|);
    FinalPassStays(self, again, nodes, o.list, 0, |o.list|);
    var b := BestIsTrimmed(all, k);
  }

  /** `node_lookup` returns only nodes of the network, the globally closest other node first. */
  lemma NodeLookupConverges(self: Peer, k: Key, net: Net, again: Net, nodes: set<Peer>, g: Peer, base: int,
                            local: seq<Peer>)
    requires Healthy(self, net, nodes, g, base) && Live(self, again, nodes) && IsNearestNode(g, k, nodes)
    requires NoValues(net)
    requires Reaches(base, g.key, local) && forall x :: x in local ==> x in nodes
    ensures match NodeLookup(self, k, net, again, local)
            case None => false
            case Some(r) => r != [] && |r| <= KBUCKET_MAX && r[0].key == g.key && forall x :: x in r ==> x in nodes
  {
    hide Sort, Sweep, Best, FinalPass, Rounds, IsNearestNode, Lookup;
    assert [] + local == local;
    NodeLookupStays(self, k, net, again, nodes, local);
    LookupConverges(self, k, net, nodes, g, base, [], local);
    var o := Lookup(self, k, net, [], local);
    LookupStaysOn(self, k, net, nodes, local);
    var all := FinalPass(self, again, o.list, 0, |o.list|);
    FinalPassStays(self, again, nodes, o.list, 0, |o.list|);
    FinalPassExtends(self, again, o.list, 0, |o.list|);
    assert o.list[0] in all;
    HeadIsNearest(k, nodes, g, all, o.list[0]);
  }

  /** The candidates a lookup settles on are nodes of the network. */
  lemma LookupStaysOn(self: Peer, k: Key, net: Net, nodes: set<Peer>, local: seq<Peer>)
    requires Live(self, net, nodes) && forall x :: x in local ==> x in nodes
    ensures var o := Lookup(self, k, net, [], local);
      o.Settled? ==> OnTrack(net, nodes, o.list, o.asked)
  {
    hide Live, Sort, Rounds;
    assert [] + local == local;
    SortMembers(local, k);
    RoundsStayOnTrack(self, k, net, nodes, Sort(local, k), [], 0, MinDist(k, local), MAX_LOOKUP_ITERS);
  }
}
