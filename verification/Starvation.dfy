/**
 What the swapped spill-over test of `tree_closest_peers` (src/dht/router.cpp:207-208)
 can do: a concrete history after which a table of 20 peers answers a query for
 20 peers with nobody at all.
 */
module Starvation {
  import opened Keys
  import opened Tries
  import opened Queries
  import opened Runs
  import opened Splits
  import opened Lookups
  import opened LookupFacts
  import opened Convergence
  import opened Tables
  import opened Networks

  function Self(): Peer {
    Peer(seq(KEYBITS, _ => false), [])
  }

  /** A key with the top bit and the bit at depth `i + 1` set, at an endpoint of its own. */
  function FarPeer(i: nat): Peer {
    Peer(seq(KEYBITS, j => j == 0 || j == i + 1), seq(i + 1, _ => 1))
  }

  /** A key on the same side of the root as self. */
  function Near(): Peer {
    Peer(seq(KEYBITS, j => j == 1), [2])
  }

  /** Far peers `n - 1`, ..., `0`, newest first. */
  function FarBucket(n: nat): seq<Peer> {
    if n == 0 then [] else [FarPeer(n - 1)] + FarBucket(n - 1)
  }

  function Sightings(n: nat): seq<Op> {
    if n == 0 then [] else Sightings(n - 1) + [Seen(FarPeer(n - 1))]
  }

  /** See 20 far peers, see a near one, lose the near one. */
  function Script(): seq<Op> {
    Sightings(KBUCKET_MAX) + [Seen(Near()), Drop(Near().key)]
  }

  lemma {:induction false} FarBucketHas(n: nat, x: Peer)
    requires x in FarBucket(n)
    ensures exists i: nat :: i < n && x == FarPeer(i)
  {
    if x != FarPeer(n - 1) {
      FarBucketHas(n - 1, x);
    }
  }

  lemma FarPeersDiffer(i: nat, j: nat)
    requires i < KBUCKET_MAX && j < KBUCKET_MAX && i != j
    ensures FarPeer(i).key != FarPeer(j).key
  {
    assert FarPeer(i).key[i + 1] && !FarPeer(j).key[i + 1];
  }

  lemma FarEndpoints(i: nat, j: nat)
    requires i != j
    ensures FarPeer(i).endpoint != FarPeer(j).endpoint
  {
    assert |FarPeer(i).endpoint| == i + 1 && |FarPeer(j).endpoint| == j + 1;
  }

  lemma NotYetSeen(n: nat)
    requires n < KBUCKET_MAX
    ensures Find(FarBucket(n), FarPeer(n).key) == |FarBucket(n)|
  {
    var i := Find(FarBucket(n), FarPeer(n).key);
    if i < |FarBucket(n)| {
      FarBucketHas(n, FarBucket(n)[i]);
      var j: nat :| j < n && FarBucket(n)[i] == FarPeer(j);
      FarPeersDiffer(j, n);
    }
  }

  lemma {:induction false} FarBucketSize(n: nat)
    ensures |FarBucket(n)| == n
  {
    if n > 0 {
      FarBucketSize(n - 1);
    }
  }

  lemma {:induction false} RunConcat(self: Peer, h: History, a: seq<Op>, b: seq<Op>)
    requires Good(h, self)
    ensures Run(self, h, a + b) == Run(self, Run(self, h, a), b)
    decreases |a|
  {
    if a == [] {
      assert a + b == b;
    } else {
      NextIsGood(h, self, a[0]);
      assert (a + b)[1..] == a[1..] + b;
      RunConcat(self, Next(h, self, a[0]), a[1..], b);
    }
  }

  lemma RunOne(self: Peer, h: History, op: Op)
    requires Good(h, self)
    ensures Run(self, h, [op]) == Next(h, self, op)
  {
    NextIsGood(h, self, op);
    assert [op][1..] == [];
  }

  lemma RunNone(self: Peer, h: History)
    requires Good(h, self)
    ensures Run(self, h, []) == h
  {
  }

  /** While the root is a leaf with room, a new far peer is pushed to its front. */
  lemma OneMore(h: History, n: nat)
    requires Good(h, Self()) && h.t == Leaf(FarBucket(n)) && n < KBUCKET_MAX
    ensures Next(h, Self(), Seen(FarPeer(n))).t == Leaf(FarBucket(n + 1))
  {
    NotYetSeen(n);
    FarBucketSize(n);
    assert FarPeer(n).key[0] && !Self().key[0];
    assert FarPeer(n).endpoint != Self().endpoint;
    assert Insert(h.t, 0, Self().key, FarPeer(n)) == Inserted(Leaf([FarPeer(n)] + FarBucket(n)));
  }

  lemma {:induction false} SightingsFillOneLeaf(n: nat)
    requires n <= KBUCKET_MAX
    ensures Good(NewTable(), Self())
    ensures Run(Self(), NewTable(), Sightings(n)).t == Leaf(FarBucket(n))
  {
    hide Run, Next, Good, FarPeer;
    NewTableIsGood(Self());
    RunNone(Self(), NewTable());
    if n > 0 {
      SightingsFillOneLeaf(n - 1);
      var h := Run(Self(), NewTable(), Sightings(n - 1));
      RunConcat(Self(), NewTable(), Sightings(n - 1), [Seen(FarPeer(n - 1))]);
      RunOne(Self(), h, Seen(FarPeer(n - 1)));
      OneMore(h, n - 1);
    }
  }

  lemma {:induction false} NoneOnThatSide(b: seq<Peer>, d: nat, bit: bool)
    requires d < KEYBITS && forall x :: x in b ==> x.key[d] != bit
    ensures Half(b, d, bit) == []
  {
    if b != [] {
      NoneOnThatSide(b[1..], d, bit);
      assert b[0] in b;
    }
  }

  lemma HalvesOfFarBucket()
    ensures Half(FarBucket(KBUCKET_MAX), 0, false) == []
    ensures |Half(FarBucket(KBUCKET_MAX), 0, true)| == KBUCKET_MAX
  {
    hide FarBucket;
    var b := FarBucket(KBUCKET_MAX);
    forall x | x in b ensures x.key[0] {
      FarBucketHas(KBUCKET_MAX, x);
    }
    NoneOnThatSide(b, 0, false);
    HalvesCount(b, 0);
    FarBucketSize(KBUCKET_MAX);
  }

  lemma NearIsNew()
    ensures Find(FarBucket(KBUCKET_MAX), Near().key) == |FarBucket(KBUCKET_MAX)|
    ensures !Near().key[0] && Near().key != Self().key
  {
    hide FarBucket;
    var b := FarBucket(KBUCKET_MAX);
    assert !Near().key[0] && Near().key[1] && !Self().key[1];
    if Find(b, Near().key) < |b| {
      FarBucketHas(KBUCKET_MAX, b[Find(b, Near().key)]);
    }
  }

  /** The near peer makes the full root split and is alone on its side. */
  lemma NearSplits(h: History)
    requires Good(h, Self()) && h.t == Leaf(FarBucket(KBUCKET_MAX))
    ensures Next(h, Self(), Seen(Near())).t ==
            Joint(Leaf([Near()]), Leaf(Half(FarBucket(KBUCKET_MAX), 0, true)))
  {
    hide FarBucket;
    var b := FarBucket(KBUCKET_MAX);
    HalvesOfFarBucket();
    FarBucketSize(KBUCKET_MAX);
    NearIsNew();
    var s := Split(b, 0);
    assert Insert(s.zero, 1, Self().key, Near()) == Inserted(Leaf([Near()] + []));
    assert [Near()] + [] == [Near()];
    assert Insert(s, 0, Self().key, Near()) == Inserted(Joint(Leaf([Near()]), s.one));
  }

  lemma NearLeaves(h: History, o: Trie)
    requires Good(h, Self()) && h.t == Joint(Leaf([Near()]), o)
    ensures Next(h, Self(), Drop(Near().key)).t == Joint(Leaf([]), o)
  {
    assert !Near().key[0] && Near().key[1] && !Self().key[1];
    assert Evict(Leaf([Near()]), 1, Near().key) == Leaf([]);
  }

  /** After the script the near side of the root is an empty leaf and the far side holds 20 peers. */
  lemma ScriptEnds()
    ensures Good(NewTable(), Self())
    ensures Run(Self(), NewTable(), Script()).t ==
            Joint(Leaf([]), Leaf(Half(FarBucket(KBUCKET_MAX), 0, true)))
  {
    var a, b := Seen(Near()), Drop(Near().key);
    SightingsFillOneLeaf(KBUCKET_MAX);
    var h := Run(Self(), NewTable(), Sightings(KBUCKET_MAX));
    RunConcat(Self(), NewTable(), Sightings(KBUCKET_MAX), [a, b]);
    assert [a, b] == [a] + [b];
    RunConcat(Self(), h, [a], [b]);
    RunOne(Self(), h, a);
    NearSplits(h);
    NextIsGood(h, Self(), a);
    RunOne(Self(), Next(h, Self(), a), b);
    NearLeaves(Next(h, Self(), a), Leaf(Half(FarBucket(KBUCKET_MAX), 0, true)));
  }

  /** The table holds 20 peers, the documented query returns them, the query as written returns none. */
  lemma TwentyPeersAnswerNobody(k: Key)
    requires !k[0]
    ensures Good(NewTable(), Self())
    ensures var t := Run(Self(), NewTable(), Script()).t;
      && Fits(t, 0)
      && Count(t) == KBUCKET_MAX
      && Closest(t, 0, k, KBUCKET_MAX) == []
      && |Nearest(t, 0, k, KBUCKET_MAX)| == KBUCKET_MAX
      && !LeafwiseNearest(t, k, KBUCKET_MAX, Closest(t, 0, k, KBUCKET_MAX))
  {
    ScriptEnds();
    HalvesOfFarBucket();
    var t := Run(Self(), NewTable(), Script()).t;
    NearestSize(t, 0, k, KBUCKET_MAX);
  }

  /**
   After the same history one more far peer, which shares no bit with self's prefix of
   its leaf, splits that leaf: only the bits at its depth are compared.
   */
  lemma FarLeafSplits(h: History)
    requires Good(NewTable(), Self()) && h == Run(Self(), NewTable(), Script())
    ensures Fits(h.t, 0) && OnOwnPath(h.t, [], Self().key)
    ensures SplitsElsewhere(h.t, 0, Self().key, FarPeer(99).key)
    ensures !OnOwnPath(Next(h, Self(), Seen(FarPeer(99))).t, [], Self().key)
  {
    hide FarBucket, Run, InOrder, FarPeer, Self, Half, Script, Wf, Shallow, Elsewhere;
    var x, far := FarPeer(99), Half(FarBucket(KBUCKET_MAX), 0, true);
    ScriptEnds();
    HalvesOfFarBucket();
    NinetyNineIsNew();
    FarSideSplits(far, Self().key, x.key);
    NextStaysOnPathExactly(h, Self(), Seen(x));
  }

  lemma NinetyNineIsNew()
    ensures var x, far := FarPeer(99), Half(FarBucket(KBUCKET_MAX), 0, true);
      && Find(far, x.key) == |far|
      && x.key[0] && !Self().key[0] && x.key[1] == Self().key[1]
      && x.key != Self().key && x.endpoint != Self().endpoint
  {
    hide FarBucket, Half;
    var x, far := FarPeer(99), Half(FarBucket(KBUCKET_MAX), 0, true);
    HalfMembers(FarBucket(KBUCKET_MAX), 0, true);
    assert x.key[100];
    if Find(far, x.key) < |far| {
      FarBucketHas(KBUCKET_MAX, far[Find(far, x.key)]);
    }
  }

  lemma FarSideSplits(far: seq<Peer>, self: Key, k: Key)
    requires |far| == KBUCKET_MAX && Find(far, k) == |far|
    requires k[0] && !self[0] && k[1] == self[1]
    ensures var t := Joint(Leaf([]), Leaf(far)); Fits(t, 0) && OnOwnPath(t, [], self) && SplitsElsewhere(t, 0, self, k)
  {
    var t := Joint(Leaf([]), Leaf(far));
    assert LeafDepth(t, 0, k) == LeafDepth(Leaf(far), 1, k) == 1;
    assert k[..1][0];
  }

  // ---------- A complete network ----------

  /** Self and its 20 far peers. */
  function Everybody(): set<Peer> {
    {Self()} + set x | x in FarBucket(KBUCKET_MAX)
  }

  /** The bucket with `x` replaced by `y`. */
  function Swapped(b: seq<Peer>, x: Peer, y: Peer): seq<Peer> {
    if b == [] then [] else [if b[0] == x then y else b[0]] + Swapped(b[1..], x, y)
  }

  /** Self has the table of the script; every other node has one bucket with everybody else. */
  ghost function TableOf(x: Peer): Trie {
    NewTableIsGood(Self());
    if x == Self() then Run(Self(), NewTable(), Script()).t
    else Leaf(Swapped(FarBucket(KBUCKET_MAX), x, Self()))
  }

  lemma {:induction false} FarBucketDistinct(n: nat)
    requires n <= KBUCKET_MAX
    ensures DistinctKeys(FarBucket(n))
  {
    if n > 0 {
      FarBucketDistinct(n - 1);
      forall x | x in FarBucket(n - 1) ensures x.key != FarPeer(n - 1).key {
        FarBucketHas(n - 1, x);
        var i: nat :| i < n - 1 && x == FarPeer(i);
        FarPeersDiffer(i, n - 1);
      }
    }
  }

  lemma {:induction false} SwappedMembers(b: seq<Peer>, x: Peer, y: Peer)
    requires DistinctKeys(b) && forall z :: z in b ==> z.key != y.key
    ensures |Swapped(b, x, y)| == |b| && DistinctKeys(Swapped(b, x, y))
    ensures forall z :: z in Swapped(b, x, y) <==> (z in b && z != x) || (z == y && x in b)
  {
    if b != [] {
      var rest := Swapped(b[1..], x, y);
      SwappedMembers(b[1..], x, y);
      var first := if b[0] == x then y else b[0];
      assert Swapped(b, x, y) == [first] + rest;
      assert b == [b[0]] + b[1..];
      forall z | z in rest ensures z.key != first.key {
      }
    }
  }

  lemma EverybodyIsDistinct()
    ensures DistinctNodes(Everybody()) && DistinctEndpoints(Everybody())
    ensures forall x :: x in FarBucket(KBUCKET_MAX) ==> x.key != Self().key && x.key[0] && |x.endpoint| > 0
  {
    hide FarBucket;
    forall x | x in FarBucket(KBUCKET_MAX) ensures x.key[0] && |x.endpoint| > 0 {
      FarBucketHas(KBUCKET_MAX, x);
    }
    assert !Self().key[0] && |Self().endpoint| == 0;
    forall x, y | x in Everybody() && y in Everybody() && (x.key == y.key || x.endpoint == y.endpoint) ensures x == y {
      if x != Self() && y != Self() {
        FarBucketHas(KBUCKET_MAX, x);
        FarBucketHas(KBUCKET_MAX, y);
        var i: nat :| i < KBUCKET_MAX && x == FarPeer(i);
        var j: nat :| j < KBUCKET_MAX && y == FarPeer(j);
        if i != j {
          FarPeersDiffer(i, j);
          FarEndpoints(i, j);
          assert false;
        }
      }
    }
  }

  /** A table that holds everybody else is complete. */
  lemma HoldingAllIsComplete(t: Trie, x: Peer, all: set<Peer>)
    requires forall y :: Holds(t, y) <==> y in all && y != x
    ensures CompleteTable(t, x.key, all)
  {
    forall z | z in all && z.key != x.key ensures exists y :: Holds(t, y) && Agree(y.key, z.key) > Agree(x.key, z.key) {
      assert Holds(t, z) && Agree(z.key, z.key) > Agree(x.key, z.key);
    }
  }

  lemma LeafIsWf(s: seq<Peer>, self: Key)
    requires |s| <= KBUCKET_MAX && DistinctKeys(s) && forall y :: y in s ==> y.key != self
    ensures Fits(Leaf(s), 0) && Wf(Leaf(s), [], self) && Shallow(Leaf(s), 0)
  {
    hide DistinctKeys;
    forall i | 0 <= i < |s| ensures [] <= s[i].key && s[i].key != self {
      assert s[i] in s;
    }
  }

  lemma FarTableHolds(x: Peer, s: seq<Peer>)
    requires x in FarBucket(KBUCKET_MAX) && s == Swapped(FarBucket(KBUCKET_MAX), x, Self())
    ensures |s| == KBUCKET_MAX && DistinctKeys(s)
    ensures forall y :: y in s <==> y in Everybody() && y != x
  {
    hide FarBucket, Swapped, Self, DistinctNodes, DistinctEndpoints;
    EverybodyIsDistinct();
    FarBucketDistinct(KBUCKET_MAX);
    FarBucketSize(KBUCKET_MAX);
    SwappedMembers(FarBucket(KBUCKET_MAX), x, Self());
  }

  lemma FarTableIsGood(x: Peer)
    requires x in FarBucket(KBUCKET_MAX)
    ensures GoodTable(Leaf(Swapped(FarBucket(KBUCKET_MAX), x, Self())), x, Everybody())
  {
    hide FarBucket, Swapped, Self, Everybody, DistinctKeys, CompleteTable, Fits, Wf, Shallow;
    var s := Swapped(FarBucket(KBUCKET_MAX), x, Self());
    FarTableHolds(x, s);
    FarKeysDiffer(x);
    LeafIsWf(s, x.key);
    forall y | Holds(Leaf(s), y) ensures y.endpoint != x.endpoint {
      assert y in s;
    }
    HoldingAllIsComplete(Leaf(s), x, Everybody());
  }

  lemma FarKeysDiffer(x: Peer)
    requires x in FarBucket(KBUCKET_MAX)
    ensures forall y :: y in Everybody() && y != x ==> y.key != x.key && y.endpoint != x.endpoint
  {
    hide FarBucket;
    EverybodyIsDistinct();
  }

  lemma StarvedTableIsGood()
    ensures GoodTable(TableOf(Self()), Self(), Everybody())
  {
    hide FarBucket, Run;
    var b := FarBucket(KBUCKET_MAX);
    EverybodyIsDistinct();
    ScriptEnds();
    HalfMembers(b, 0, true);
    HoldingAllIsComplete(TableOf(Self()), Self(), Everybody());
  }

  lemma StarvedNetworkIsComplete()
    ensures CompleteNetwork(Everybody(), TableOf)
  {
    hide FarBucket, Run, GoodTable, Swapped, DistinctNodes, DistinctEndpoints;
    EverybodyIsDistinct();
    StarvedTableIsGood();
    forall x | x in Everybody() ensures GoodTable(TableOf(x), x, Everybody()) {
      if x != Self() {
        FarTableIsGood(x);
      }
    }
  }

  /**
   Complete tables are not enough for the query as written.  In the network of
   `StarvedNetworkIsComplete` every table is complete, and self's is one a history
   leads to; yet self's own query for any key on its side of the root returns nobody,
   so its lookups throw and it can neither publish nor read such a key.
   */
  lemma StarvedNetworkThrows(k: Key, t: Trie, net: Net, again: Net)
    requires !k[0] && t == TableOf(Self())
    ensures Fits(t, 0) && Bucketful(AsWritten, t, k) == [] && |Bucketful(Documented, t, k)| == KBUCKET_MAX
    ensures NodeLookup(Self(), k, net, again, Bucketful(AsWritten, t, k)) == None
  {
    hide FarBucket, Run, Closest, Nearest, NodeLookup, Script, Count, LeafwiseNearest, Good;
    TwentyPeersAnswerNobody(k);
    NodeLookupThrowsOnNobody(Self(), k, net, again);
  }

  // ---------- A call that empties a leaf ----------

  /**
   A full root leaf on one side: a caller on that side splits it, whether or not it gets
   in, and the other side, where every peer was found before, is left without anybody.
   */
  lemma SplitEmptiesLeaf(b: seq<Peer>, self: Peer, x: Peer, k: Key)
    requires |b| == KBUCKET_MAX && Find(b, x.key) == |b| && x.endpoint != self.endpoint && x.key != self.key
    requires x.key[0] == self.key[0] && k[0] != self.key[0] && forall y :: y in b ==> y.key[0] == self.key[0]
    ensures Route(Leaf(b), 0, k) == b
    ensures Fits(AttemptInsert(Leaf(b), self, x).t, 0)
    ensures Route(AttemptInsert(Leaf(b), self, x).t, 0, k) == []
  {
    NoneOnThatSide(b, 0, k[0]);
    SplitRoutes(Split(b, 0), self.key, x, k);
    assert Insert(Leaf(b), 0, self.key, x) == Insert(Split(b, 0), 0, self.key, x);
  }

  lemma SplitRoutes(t: Trie, self: Key, x: Peer, k: Key)
    requires Fits(t, 0) && t.Joint? && k[0] != x.key[0]
    ensures Fits(Insert(t, 0, self, x).t, 0)
    ensures Route(Insert(t, 0, self, x).t, 0, k) == Route(t, 0, k)
  {
    InsertFits(t, 0, self, x);
  }

  lemma {:induction false} InsertFits(t: Trie, d: nat, self: Key, x: Peer)
    requires Fits(t, d)
    ensures Fits(Insert(t, d, self, x).t, d)
    decreases KEYBITS - d, t.Leaf?
  {
    match t
    case Joint(_, _) => InsertFits(t.Child(x.key[d]), d + 1, self, x);
    case Leaf(b) =>
      if Find(b, x.key) == |b| && |b| >= KBUCKET_MAX && x.key[d] == self[d] && KEYBITS - 1 - d > 0 {
        InsertFits(Split(b, d), d, self, x);
      }
  }

  /** A node among the far peers, and one that calls it. */
  function Neighbour(): Peer {
    Peer(seq(KEYBITS, j => j == 0 || j == 50), [3])
  }

  function Caller(): Peer {
    Peer(seq(KEYBITS, j => j == 0 || j == 1 || j == 30), [4])
  }

  function Block(): set<Peer> {
    {Neighbour(), Caller()} + set x | x in FarBucket(KBUCKET_MAX)
  }

  lemma FarFacts(y: Peer)
    requires y in FarBucket(KBUCKET_MAX)
    ensures y.key[0] && !y.key[50] && !y.key[30] && y.endpoint != [3] && y.endpoint != [4]
    ensures y.key != Neighbour().key && y.key != Caller().key
  {
    FarBucketHas(KBUCKET_MAX, y);
    var i: nat :| i < KBUCKET_MAX && y == FarPeer(i);
    assert y.endpoint[0] == 1;
    assert Neighbour().key[50] && Caller().key[30];
  }

  lemma BlockIsNetwork()
    ensures Network(Block())
    ensures Neighbour().key != Caller().key && Neighbour().endpoint != Caller().endpoint
  {
    hide FarBucket, DistinctNodes, DistinctEndpoints;
    EverybodyIsDistinct();
    assert Neighbour().key[50] && !Caller().key[50];
    forall x, y | x in Block() && y in Block() && (x.key == y.key || x.endpoint == y.endpoint) ensures x == y {
      if x in FarBucket(KBUCKET_MAX) {
        FarFacts(x);
      }
      if y in FarBucket(KBUCKET_MAX) {
        FarFacts(y);
      }
      if x in FarBucket(KBUCKET_MAX) && y in FarBucket(KBUCKET_MAX) {
        SamePeer(Everybody(), x, y);
      }
    }
    OnlyOnePeer(Block());
  }

  lemma SamePeer(all: set<Peer>, x: Peer, y: Peer)
    requires DistinctNodes(all) && DistinctEndpoints(all) && x in all && y in all
    requires x.key == y.key || x.endpoint == y.endpoint
    ensures x == y
  {
  }

  lemma OnlyOnePeer(all: set<Peer>)
    requires forall x, y :: x in all && y in all && (x.key == y.key || x.endpoint == y.endpoint) ==> x == y
    ensures Network(all)
  {
  }

  /** The neighbour's one bucket lacks the caller, but has a peer that shares more bits with it. */
  lemma BlockTableIsGood()
    ensures GoodTable(Leaf(FarBucket(KBUCKET_MAX)), Neighbour(), Block())
  {
    hide FarBucket, Neighbour, Block, Fits, Wf, Shallow, DistinctKeys, CompleteTable;
    var b := FarBucket(KBUCKET_MAX);
    FarBucketDistinct(KBUCKET_MAX);
    FarBucketSize(KBUCKET_MAX);
    forall y | y in b ensures y.key != Neighbour().key && y.endpoint != Neighbour().endpoint {
      FarFacts(y);
    }
    LeafIsWf(b, Neighbour().key);
    BlockTableIsComplete();
  }

  lemma BlockTableIsComplete()
    ensures CompleteTable(Leaf(FarBucket(KBUCKET_MAX)), Neighbour().key, Block())
  {
    hide FarBucket, Neighbour, Caller, FarPeer, Agree;
    FarPeerIsIn(KBUCKET_MAX, 0);
    CallerIsBeside();
    BucketCompleteBut(FarBucket(KBUCKET_MAX), Neighbour().key, Block(), Caller(), FarPeer(0));
  }

  /** A bucket with all other nodes but one is complete if a peer in it shares more bits with that one. */
  lemma BucketCompleteBut(b: seq<Peer>, x: Key, all: set<Peer>, c: Peer, y: Peer)
    requires y in b && Agree(y.key, c.key) > Agree(x, c.key)
    requires forall z :: z in b ==> z in all
    requires forall z :: z in all ==> z in b || z.key == x || z == c
    ensures CompleteTable(Leaf(b), x, all)
  {
    hide Agree;
    forall z | z in all && z.key != x ensures exists w :: Holds(Leaf(b), w) && Agree(w.key, z.key) > Agree(x, z.key) {
      if z == c {
        assert Holds(Leaf(b), y);
      } else {
        SelfAgrees(x, z.key);
        assert Holds(Leaf(b), z);
      }
    }
  }

  lemma SelfAgrees(x: Key, z: Key)
    requires x != z
    ensures Agree(z, z) > Agree(x, z)
  {
  }

  lemma {:induction false} FarPeerIsIn(n: nat, i: nat)
    requires i < n
    ensures FarPeer(i) in FarBucket(n)
  {
    if i < n - 1 {
      FarPeerIsIn(n - 1, i);
    }
  }

  lemma CallerIsBeside()
    ensures Agree(FarPeer(0).key, Caller().key) > Agree(Neighbour().key, Caller().key)
  {
    AgreeAtLeast(FarPeer(0).key, Caller().key, 2);
    AgreeAtLeast(Neighbour().key, Caller().key, 2);
    assert !Neighbour().key[..2][1] && Caller().key[..2][1];
  }

  /**
   With the query as written, one call of a network node can take away what lookups
   need of a good table: before it the leaf of the key is full, after it empty.
   */
  lemma UpdateEmptiesTheLeaf(k: Key, t: Trie)
    requires !k[0] && t == Leaf(FarBucket(KBUCKET_MAX))
    ensures Network(Block()) && Caller() in Block() && GoodTable(t, Neighbour(), Block())
    ensures GoodTable(AttemptInsert(t, Neighbour(), Caller()).t, Neighbour(), Block())
    ensures |Route(t, 0, k)| == KBUCKET_MAX && Route(AttemptInsert(t, Neighbour(), Caller()).t, 0, k) == []
  {
    hide FarBucket, Network, Sound, CompleteTable, AttemptInsert;
    BlockIsNetwork();
    BlockTableIsGood();
    InsertKeepsGood(t, Neighbour(), Block(), Caller());
    FarBucketSize(KBUCKET_MAX);
    forall y | y in FarBucket(KBUCKET_MAX) ensures y.key[0] && y.key != Caller().key {
      FarFacts(y);
    }
    SplitEmptiesLeaf(FarBucket(KBUCKET_MAX), Neighbour(), Caller(), k);
  }
}
