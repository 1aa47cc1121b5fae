/**
 Nearest-peer queries over the routing trie (src/dht/router.cpp:109-221).

 `Closest` is the query as the code computes it.  `Nearest` is the query the
 comments describe: all of the matching side first, then what is still missing
 from the other side.  `LeafwiseNearest` is what a caller may expect of either.
 */
module Queries {
  import opened Keys
  import opened Tries

  function Min(a: nat, b: nat): nat {
    if a < b then a else b
  }

  /** `tree_closest_peers` as written: test and remainder of the spill-over are swapped. */
  function Closest(t: Trie, d: nat, k: Key, n: nat): seq<Peer>
    requires Fits(t, d)
  {
    match t
    case Leaf(b) => b[..Min(n, |b|)]
    case Joint(_, _) =>
      var preferred, alternate := t.Child(k[d]), t.Child(!k[d]);
      Closest(preferred, d + 1, k, n) +
      if n < Count(preferred) then Closest(alternate, d + 1, k, Count(preferred) - n) else []
  }

  /** `tree_closest_peers` as documented. */
  function Nearest(t: Trie, d: nat, k: Key, n: nat): seq<Peer>
    requires Fits(t, d)
  {
    match t
    case Leaf(b) => b[..Min(n, |b|)]
    case Joint(_, _) =>
      var preferred, alternate := t.Child(k[d]), t.Child(!k[d]);
      Nearest(preferred, d + 1, k, n) +
      if Count(preferred) < n then Nearest(alternate, d + 1, k, n - Count(preferred)) else []
  }

  /** Both keys are routed to the same leaf. */
  predicate SameLeaf(t: Trie, d: nat, a: Key, b: Key)
    requires Fits(t, d)
  {
    t.Joint? ==> a[d] == b[d] && SameLeaf(t.Child(a[d]), d + 1, a, b)
  }

  /**
   `r` is min(n, size) distinct stored peers, and a stored peer is left out only
   if it is farther than every returned peer of another leaf.
   */
  ghost predicate LeafwiseNearest(t: Trie, k: Key, n: nat, r: seq<Peer>)
    requires Fits(t, 0)
  {
    && |r| == Min(n, Count(t))
    && DistinctKeys(r)
    && (forall x :: x in r ==> x in AllPeers(t))
    && forall x, y :: x in r && y in AllPeers(t) && y !in r ==>
         SameLeaf(t, 0, x.key, y.key) || Dist(k, x.key) < Dist(k, y.key)
  }

  // ---------- What a trie stores ----------

  /** `x in AllPeers(t)`, side by side. */
  predicate Holds(t: Trie, x: Peer) {
    match t
    case Leaf(b) => x in b
    case Joint(z, o) => Holds(z, x) || Holds(o, x)
  }

  ghost predicate AllHeld(t: Trie, s: seq<Peer>) {
    forall x :: x in s ==> Holds(t, x)
  }

  lemma {:induction false} HoldsIsStored(t: Trie, x: Peer)
    ensures Holds(t, x) <==> x in AllPeers(t)
  {
    match t
    case Leaf(b) =>
    case Joint(z, o) =>
      HoldsIsStored(z, x);
      HoldsIsStored(o, x);
  }

  lemma InConcat(a: seq<Peer>, b: seq<Peer>, x: Peer)
    ensures x in a + b <==> x in a || x in b
  {
  }

  lemma {:induction false} PeerUnderPath(t: Trie, p: Bits, self: Key, x: Peer)
    requires Wf(t, p, self) && Holds(t, x)
    ensures p <= x.key && x.key != self
  {
    match t
    case Leaf(b) =>
    case Joint(z, o) =>
      if Holds(o, x) {
        PeerUnderPath(o, p + [true], self, x);
      } else {
        PeerUnderPath(z, p + [false], self, x);
      }
  }

  /** A peer below one child of a joint has that child's bit. */
  lemma SideBit(t: Trie, p: Bits, self: Key, bit: bool, x: Peer)
    requires t.Joint? && Wf(t, p, self) && Holds(t.Child(bit), x)
    ensures p <= x.key && x.key[|p|] == bit
  {
    assert Wf(t.Child(bit), p + [bit], self);
    PeerUnderPath(t.Child(bit), p + [bit], self, x);
    assert (p + [bit])[|p|] == bit;
  }

  lemma {:induction false} AllPeersCount(t: Trie)
    ensures |AllPeers(t)| == Count(t)
  {
    match t
    case Leaf(b) =>
    case Joint(z, o) =>
      AllPeersCount(z);
      AllPeersCount(o);
  }

  lemma DistinctConcat(a: seq<Peer>, b: seq<Peer>)
    requires DistinctKeys(a) && DistinctKeys(b)
    requires forall x, y :: x in a && y in b ==> x.key != y.key
    ensures DistinctKeys(a + b)
  {
    var c := a + b;
    forall i, j | 0 <= i < j < |c| ensures c[i].key != c[j].key {
      if i < |a| <= j {
        assert c[i] in a && c[j] in b;
      }
    }
  }

  lemma DistinctSides(t: Trie, p: Bits, self: Key, bit: bool, a: seq<Peer>, b: seq<Peer>)
    requires t.Joint? && Wf(t, p, self) && DistinctKeys(a) && DistinctKeys(b)
    requires AllHeld(t.Child(bit), a) && AllHeld(t.Child(!bit), b)
    ensures DistinctKeys(a + b)
  {
    forall x, y | x in a && y in b ensures x.key != y.key {
      SideBit(t, p, self, bit, x);
      SideBit(t, p, self, !bit, y);
    }
    DistinctConcat(a, b);
  }

  lemma {:induction false} AllPeersDistinct(t: Trie, p: Bits, self: Key)
    requires Wf(t, p, self)
    ensures DistinctKeys(AllPeers(t))
  {
    match t
    case Leaf(b) =>
    case Joint(z, o) =>
      AllPeersDistinct(z, p + [false], self);
      AllPeersDistinct(o, p + [true], self);
      forall x | x in AllPeers(o) ensures Holds(o, x) {
        HoldsIsStored(o, x);
      }
      forall x | x in AllPeers(z) ensures Holds(z, x) {
        HoldsIsStored(z, x);
      }
      DistinctSides(t, p, self, true, AllPeers(o), AllPeers(z));
  }

  lemma {:induction false} PeerInMap(t: Trie, p: Bits, self: Key, x: Peer)
    requires Wf(t, p, self) && Holds(t, x)
    ensures x.key in AsMap(t) && AsMap(t)[x.key] == x.endpoint
  {
    match t
    case Leaf(b) => BucketMapHas(b, x);
    case Joint(z, o) =>
      var bit := Holds(o, x);
      SideBit(t, p, self, bit, x);
      PeerInMap(t.Child(bit), p + [bit], self, x);
      NotInSibling(t, p, self, x.key);
  }

  lemma {:induction false} MapKeysArePeers(t: Trie)
    ensures AsMap(t).Keys == KeysOf(AllPeers(t))
  {
    match t
    case Leaf(b) =>
    case Joint(z, o) =>
      MapKeysArePeers(z);
      MapKeysArePeers(o);
  }

  /** `tree_all_peers` enumerates the abstract map, each entry once. */
  lemma AllPeersEnumeratesMap(t: Trie, self: Key)
    requires Wf(t, [], self)
    ensures DistinctKeys(AllPeers(t)) && BucketMap(AllPeers(t)) == AsMap(t)
    ensures |AllPeers(t)| == Count(t) == |AsMap(t)|
  {
    AllPeersDistinct(t, [], self);
    AllPeersCount(t);
    MapKeysArePeers(t);
    forall x | x in AllPeers(t) ensures AsMap(t)[x.key] == x.endpoint {
      HoldsIsStored(t, x);
      PeerInMap(t, [], self, x);
    }
    BucketMapIs(AllPeers(t), AsMap(t));
    DistinctCount(AllPeers(t));
    assert |AsMap(t)| == |AsMap(t).Keys|;
  }

  /** The list goes through the leaves from the largest keys down. */
  lemma {:induction false} AllPeersDescends(t: Trie, p: Bits, self: Key, i: nat, j: nat)
    requires Wf(t, p, self) && i < j < |AllPeers(t)|
    ensures Fits(t, |p|)
    ensures var a, b := AllPeers(t)[i].key, AllPeers(t)[j].key; SameLeaf(t, |p|, a, b) || Num(a) > Num(b)
  {
    WfFits(t, p, self);
    match t
    case Leaf(b) =>
    case Joint(z, o) =>
      var x, y, n := AllPeers(t)[i], AllPeers(t)[j], |AllPeers(o)|;
      HoldsIsStored(if i < n then o else z, x);
      HoldsIsStored(if j < n then o else z, y);
      SideBit(t, p, self, i < n, x);
      SideBit(t, p, self, j < n, y);
      if j < n {
        AllPeersDescends(o, p + [true], self, i, j);
      } else if i < n {
        NumOrder(y.key, x.key, |p|);
      } else {
        AllPeersDescends(z, p + [false], self, i - n, j - n);
      }
  }

  lemma {:induction false} WfFits(t: Trie, p: Bits, self: Key)
    requires Wf(t, p, self)
    ensures Fits(t, |p|)
  {
    match t
    case Leaf(_) =>
    case Joint(z, o) =>
      WfFits(z, p + [false], self);
      WfFits(o, p + [true], self);
  }

  // ---------- Distances across leaves ----------

  /** At a joint, everybody on the side of the search bit is closer than everybody on the other. */
  lemma PreferredIsCloser(t: Trie, p: Bits, self: Key, k: Key, x: Peer, y: Peer)
    requires t.Joint? && Wf(t, p, self)
    requires Holds(t.Child(k[|p|]), x) && Holds(t.Child(!k[|p|]), y)
    ensures Dist(k, x.key) < Dist(k, y.key)
  {
    SideBit(t, p, self, k[|p|], x);
    SideBit(t, p, self, !k[|p|], y);
    assert x.key[..|p|] == p == y.key[..|p|];
    MatchingBitIsCloser(k, x.key, y.key, |p|);
  }

  lemma {:induction false} RouteIsStored(t: Trie, d: nat, k: Key, x: Peer)
    requires Fits(t, d)
    ensures x in Route(t, d, k) ==> Holds(t, x)
  {
    if t.Joint? {
      RouteIsStored(t.Child(k[d]), d + 1, k, x);
    }
  }

  lemma {:induction false} RouteSize(t: Trie, d: nat, k: Key)
    requires Fits(t, d)
    ensures |Route(t, d, k)| <= Count(t)
  {
    if t.Joint? {
      RouteSize(t.Child(k[d]), d + 1, k);
    }
  }

  /** The bucket the search key is routed to holds the nearest peers, up to its own order. */
  lemma {:induction false} RouteIsNearest(t: Trie, p: Bits, self: Key, k: Key, x: Peer, y: Peer)
    requires Wf(t, p, self) && Fits(t, |p|)
    requires x in Route(t, |p|, k) && Holds(t, y)
    ensures y in Route(t, |p|, k) || Dist(k, x.key) < Dist(k, y.key)
    ensures y in Route(t, |p|, k) ==> SameLeaf(t, |p|, x.key, y.key)
  {
    if t.Joint? {
      var bit := k[|p|];
      var c := t.Child(bit);
      RouteIsStored(c, |p| + 1, k, x);
      RouteIsStored(c, |p| + 1, k, y);
      SideBit(t, p, self, bit, x);
      if Holds(c, y) {
        SideBit(t, p, self, bit, y);
        RouteIsNearest(c, p + [bit], self, k, x, y);
      } else {
        PreferredIsCloser(t, p, self, k, x, y);
      }
    }
  }

  // ---------- The documented query ----------

  /** `x in Nearest(t, d, k, n)`, side by side. */
  predicate Takes(t: Trie, d: nat, k: Key, n: nat, x: Peer)
    requires Fits(t, d)
  {
    match t
    case Leaf(b) => x in b[..Min(n, |b|)]
    case Joint(_, _) =>
      var preferred, alternate := t.Child(k[d]), t.Child(!k[d]);
      || Takes(preferred, d + 1, k, n, x)
      || (Count(preferred) < n && Takes(alternate, d + 1, k, n - Count(preferred), x))
  }

  lemma {:induction false} TakesIsNearest(t: Trie, d: nat, k: Key, n: nat, x: Peer)
    requires Fits(t, d)
    ensures Takes(t, d, k, n, x) <==> x in Nearest(t, d, k, n)
  {
    if t.Joint? {
      var preferred, alternate := t.Child(k[d]), t.Child(!k[d]);
      var a := Nearest(preferred, d + 1, k, n);
      var b := if Count(preferred) < n then Nearest(alternate, d + 1, k, n - Count(preferred)) else [];
      TakesIsNearest(preferred, d + 1, k, n, x);
      if Count(preferred) < n {
        TakesIsNearest(alternate, d + 1, k, n - Count(preferred), x);
      }
      InConcat(a, b, x);
      assert Nearest(t, d, k, n) == a + b;
    }
  }

  lemma {:induction false} TakesFromHeld(t: Trie, d: nat, k: Key, n: nat, x: Peer)
    requires Fits(t, d) && Takes(t, d, k, n, x)
    ensures Holds(t, x)
  {
    if t.Joint? {
      var preferred, alternate := t.Child(k[d]), t.Child(!k[d]);
      if Takes(preferred, d + 1, k, n, x) {
        TakesFromHeld(preferred, d + 1, k, n, x);
      } else {
        TakesFromHeld(alternate, d + 1, k, n - Count(preferred), x);
      }
    }
  }

  lemma {:induction false} NearestSize(t: Trie, d: nat, k: Key, n: nat)
    requires Fits(t, d)
    ensures |Nearest(t, d, k, n)| == Min(n, Count(t))
  {
    if t.Joint? {
      var preferred, alternate := t.Child(k[d]), t.Child(!k[d]);
      NearestSize(preferred, d + 1, k, n);
      if Count(preferred) < n {
        NearestSize(alternate, d + 1, k, n - Count(preferred));
      }
    }
  }

  /** With room for everybody, nobody is left out. */
  lemma {:induction false} TakesAll(t: Trie, d: nat, k: Key, n: nat, x: Peer)
    requires Fits(t, d) && n >= Count(t) && Holds(t, x)
    ensures Takes(t, d, k, n, x)
  {
    if t.Joint? {
      var preferred, alternate := t.Child(k[d]), t.Child(!k[d]);
      if Holds(preferred, x) {
        TakesAll(preferred, d + 1, k, n, x);
      } else {
        HoldersCount(alternate, x);
        TakesAll(alternate, d + 1, k, n - Count(preferred), x);
      }
    }
  }

  lemma {:induction false} HoldersCount(t: Trie, x: Peer)
    requires Holds(t, x)
    ensures Count(t) > 0
  {
    if t.Joint? {
      HoldersCount(if Holds(t.zero, x) then t.zero else t.one, x);
    }
  }

  lemma NearestIsHeld(t: Trie, d: nat, k: Key, n: nat)
    requires Fits(t, d)
    ensures AllHeld(t, Nearest(t, d, k, n))
  {
    forall x | x in Nearest(t, d, k, n) ensures Holds(t, x) {
      TakesIsNearest(t, d, k, n, x);
      TakesFromHeld(t, d, k, n, x);
    }
  }

  lemma {:induction false} NearestDistinct(t: Trie, p: Bits, self: Key, k: Key, n: nat)
    requires Wf(t, p, self) && Fits(t, |p|)
    ensures DistinctKeys(Nearest(t, |p|, k, n))
  {
    if t.Joint? {
      var bit := k[|p|];
      var preferred, alternate := t.Child(bit), t.Child(!bit);
      NearestDistinct(preferred, p + [bit], self, k, n);
      if Count(preferred) < n {
        NearestDistinct(alternate, p + [!bit], self, k, n - Count(preferred));
        NearestIsHeld(preferred, |p| + 1, k, n);
        NearestIsHeld(alternate, |p| + 1, k, n - Count(preferred));
        DistinctSides(t, p, self, bit, Nearest(preferred, |p| + 1, k, n),
                      Nearest(alternate, |p| + 1, k, n - Count(preferred)));
      }
    }
  }

  lemma {:induction false} TakesTheNearer(t: Trie, p: Bits, self: Key, k: Key, n: nat, x: Peer, y: Peer)
    requires Wf(t, p, self) && Fits(t, |p|)
    requires Takes(t, |p|, k, n, x) && Holds(t, y) && !Takes(t, |p|, k, n, y)
    ensures SameLeaf(t, |p|, x.key, y.key) || Dist(k, x.key) < Dist(k, y.key)
  {
    if t.Joint? {
      var bit := k[|p|];
      var preferred, alternate := t.Child(bit), t.Child(!bit);
      if Takes(preferred, |p| + 1, k, n, x) {
        TakesFromHeld(preferred, |p| + 1, k, n, x);
        SideBit(t, p, self, bit, x);
        if Holds(preferred, y) {
          SideBit(t, p, self, bit, y);
          TakesTheNearer(preferred, p + [bit], self, k, n, x, y);
        } else {
          PreferredIsCloser(t, p, self, k, x, y);
        }
      } else {
        var m := n - Count(preferred);
        TakesFromHeld(alternate, |p| + 1, k, m, x);
        SideBit(t, p, self, !bit, x);
        if Holds(preferred, y) {
          TakesAll(preferred, |p| + 1, k, n, y);
          assert false;
        }
        SideBit(t, p, self, !bit, y);
        TakesTheNearer(alternate, p + [!bit], self, k, m, x, y);
      }
    }
  }

  /** The documented query always meets its promise. */
  lemma NearestIsRight(t: Trie, self: Key, k: Key, n: nat)
    requires Wf(t, [], self) && Fits(t, 0)
    ensures LeafwiseNearest(t, k, n, Nearest(t, 0, k, n))
  {
    var r := Nearest(t, 0, k, n);
    NearestSize(t, 0, k, n);
    NearestDistinct(t, [], self, k, n);
    forall x | x in r ensures x in AllPeers(t) {
      TakesIsNearest(t, 0, k, n, x);
      TakesFromHeld(t, 0, k, n, x);
      HoldsIsStored(t, x);
    }
    forall x, y | x in r && y in AllPeers(t) && y !in r
      ensures SameLeaf(t, 0, x.key, y.key) || Dist(k, x.key) < Dist(k, y.key)
    {
      TakesIsNearest(t, 0, k, n, x);
      TakesIsNearest(t, 0, k, n, y);
      HoldsIsStored(t, y);
      TakesTheNearer(t, [], self, k, n, x, y);
    }
  }

  ghost predicate IsClosest(t: Trie, k: Key, m: Peer) {
    Holds(t, m) && forall y :: Holds(t, y) ==> Dist(k, m.key) <= Dist(k, y.key)
  }

  /** Asked for a bucketful or more, the documented query returns the closest stored peer. */
  lemma {:induction false} NearestHasTheClosest(t: Trie, p: Bits, self: Key, k: Key, n: nat, m: Peer)
    requires Wf(t, p, self) && Fits(t, |p|) && n >= KBUCKET_MAX && IsClosest(t, k, m)
    ensures m in Nearest(t, |p|, k, n)
  {
    TakesTheClosest(t, p, self, k, n, m);
    TakesIsNearest(t, |p|, k, n, m);
  }

  lemma {:induction false} TakesTheClosest(t: Trie, p: Bits, self: Key, k: Key, n: nat, m: Peer)
    requires Wf(t, p, self) && Fits(t, |p|) && n >= KBUCKET_MAX && IsClosest(t, k, m)
    ensures Takes(t, |p|, k, n, m)
  {
    if t.Joint? {
      var bit := k[|p|];
      var preferred, alternate := t.Child(bit), t.Child(!bit);
      if Holds(preferred, m) {
        TakesTheClosest(preferred, p + [bit], self, k, n, m);
      } else {
        if Count(preferred) > 0 {
          AllPeersCount(preferred);
          var x := AllPeers(preferred)[0];
          HoldsIsStored(preferred, x);
          PreferredIsCloser(t, p, self, k, x, m);
          assert false;
        }
        TakesTheClosest(alternate, p + [!bit], self, k, n, m);
      }
    }
  }

  // ---------- The query as written ----------

  /** Nothing is returned: every leaf the query visits is empty, or it asks for no peer. */
  predicate Quiet(t: Trie, d: nat, k: Key, n: nat)
    requires Fits(t, d)
  {
    match t
    case Leaf(b) => n == 0 || b == []
    case Joint(_, _) =>
      var preferred, alternate := t.Child(k[d]), t.Child(!k[d]);
      Quiet(preferred, d + 1, k, n) &&
      (n < Count(preferred) ==> Quiet(alternate, d + 1, k, Count(preferred) - n))
  }

  /** On the way to the search key's leaf, the guard `n < key_count` fires and that side answers. */
  predicate Spills(t: Trie, d: nat, k: Key, n: nat)
    requires Fits(t, d)
  {
    t.Joint? &&
    var preferred, alternate := t.Child(k[d]), t.Child(!k[d]);
    || Spills(preferred, d + 1, k, n)
    || (n < Count(preferred) && !Quiet(alternate, d + 1, k, Count(preferred) - n))
  }

  lemma ClosestOfJoint(t: Trie, d: nat, k: Key, n: nat)
    requires Fits(t, d) && t.Joint?
    ensures var a, m := Closest(t.Child(k[d]), d + 1, k, n), Count(t.Child(k[d]));
      Closest(t, d, k, n) == if n < m then a + Closest(t.Child(!k[d]), d + 1, k, m - n) else a
  {
    assert Closest(t.Child(k[d]), d + 1, k, n) + [] == Closest(t.Child(k[d]), d + 1, k, n);
  }

  /** `x in Closest(t, d, k, n)`, side by side. */
  predicate Answers(t: Trie, d: nat, k: Key, n: nat, x: Peer)
    requires Fits(t, d)
  {
    match t
    case Leaf(b) => x in b[..Min(n, |b|)]
    case Joint(_, _) =>
      var preferred, alternate := t.Child(k[d]), t.Child(!k[d]);
      || Answers(preferred, d + 1, k, n, x)
      || (n < Count(preferred) && Answers(alternate, d + 1, k, Count(preferred) - n, x))
  }

  lemma AnswersOfJoint(t: Trie, d: nat, k: Key, n: nat, x: Peer)
    requires Fits(t, d) && t.Joint?
    ensures var preferred, alternate := t.Child(k[d]), t.Child(!k[d]);
      Answers(t, d, k, n, x) <==>
        || Answers(preferred, d + 1, k, n, x)
        || (n < Count(preferred) && Answers(alternate, d + 1, k, Count(preferred) - n, x))
  {
  }

  lemma {:induction false} AnswersIsClosest(t: Trie, d: nat, k: Key, n: nat, x: Peer)
    requires Fits(t, d)
    ensures Answers(t, d, k, n, x) <==> x in Closest(t, d, k, n)
  {
    if t.Joint? {
      ClosestOfJoint(t, d, k, n);
      AnswersOfJoint(t, d, k, n, x);
      hide Closest, Answers, Count;
      var preferred, alternate := t.Child(k[d]), t.Child(!k[d]);
      AnswersIsClosest(preferred, d + 1, k, n, x);
      if n < Count(preferred) {
        AnswersIsClosest(alternate, d + 1, k, Count(preferred) - n, x);
        InConcat(Closest(preferred, d + 1, k, n), Closest(alternate, d + 1, k, Count(preferred) - n), x);
      }
    }
  }

  lemma {:induction false} AnswersFromHeld(t: Trie, d: nat, k: Key, n: nat, x: Peer)
    requires Fits(t, d) && Answers(t, d, k, n, x)
    ensures Holds(t, x)
  {
    if t.Joint? {
      var preferred, alternate := t.Child(k[d]), t.Child(!k[d]);
      if Answers(preferred, d + 1, k, n, x) {
        AnswersFromHeld(preferred, d + 1, k, n, x);
      } else {
        AnswersFromHeld(alternate, d + 1, k, Count(preferred) - n, x);
      }
    }
  }

  /** `|Closest(t, d, k, n)|`, side by side. */
  function AnswerSize(t: Trie, d: nat, k: Key, n: nat): nat
    requires Fits(t, d)
  {
    match t
    case Leaf(b) => Min(n, |b|)
    case Joint(_, _) =>
      var preferred, alternate := t.Child(k[d]), t.Child(!k[d]);
      AnswerSize(preferred, d + 1, k, n) +
      if n < Count(preferred) then AnswerSize(alternate, d + 1, k, Count(preferred) - n) else 0
  }

  lemma {:induction false} AnswerSizeIs(t: Trie, d: nat, k: Key, n: nat)
    requires Fits(t, d)
    ensures |Closest(t, d, k, n)| == AnswerSize(t, d, k, n)
    ensures Quiet(t, d, k, n) <==> AnswerSize(t, d, k, n) == 0
  {
    if t.Joint? {
      var preferred, alternate := t.Child(k[d]), t.Child(!k[d]);
      AnswerSizeIs(preferred, d + 1, k, n);
      if n < Count(preferred) {
        AnswerSizeIs(alternate, d + 1, k, Count(preferred) - n);
      }
    }
  }

  lemma ClosestIsHeld(t: Trie, d: nat, k: Key, n: nat)
    requires Fits(t, d)
    ensures AllHeld(t, Closest(t, d, k, n))
  {
    forall x | x in Closest(t, d, k, n) ensures Holds(t, x) {
      AnswersIsClosest(t, d, k, n, x);
      AnswersFromHeld(t, d, k, n, x);
    }
  }

  /** The query as written never returns a key twice. */
  lemma {:induction false} ClosestDistinct(t: Trie, p: Bits, self: Key, k: Key, n: nat)
    requires Wf(t, p, self) && Fits(t, |p|)
    ensures DistinctKeys(Closest(t, |p|, k, n))
  {
    if t.Joint? {
      var bit := k[|p|];
      var preferred, alternate := t.Child(bit), t.Child(!bit);
      ClosestDistinct(preferred, p + [bit], self, k, n);
      if n < Count(preferred) {
        ClosestDistinct(alternate, p + [!bit], self, k, Count(preferred) - n);
        ClosestIsHeld(preferred, |p| + 1, k, n);
        ClosestIsHeld(alternate, |p| + 1, k, Count(preferred) - n);
        DistinctSides(t, p, self, bit, Closest(preferred, |p| + 1, k, n),
                      Closest(alternate, |p| + 1, k, Count(preferred) - n));
      }
    }
  }

  lemma {:induction false} WithoutSpill(t: Trie, d: nat, k: Key, n: nat)
    requires Fits(t, d) && !Spills(t, d, k, n)
    ensures var b := Route(t, d, k); Closest(t, d, k, n) == b[..Min(n, |b|)]
  {
    if t.Joint? {
      var preferred, alternate := t.Child(k[d]), t.Child(!k[d]);
      WithoutSpill(preferred, d + 1, k, n);
      if n < Count(preferred) {
        AnswerSizeIs(alternate, d + 1, k, Count(preferred) - n);
      }
    }
  }

  /** A longer duplicate-free list has a member the shorter list lacks. */
  lemma SomebodyMissing(a: seq<Peer>, b: seq<Peer>) returns (x: Peer)
    requires DistinctKeys(a) && |a| > |b|
    ensures x in a && x !in b
  {
    if forall x :: x in a ==> x in b {
      DistinctCount(a);
      KeysAtMost(b);
      SubsetSize(KeysOf(a), KeysOf(b));
    }
    x :| x in a && x !in b;
  }

  /** A query that returns fewer peers than the trie holds leaves somebody out. */
  lemma ShortAnswer(t: Trie, p: Bits, self: Key, k: Key, n: nat) returns (y: Peer)
    requires Wf(t, p, self) && Fits(t, |p|) && AnswerSize(t, |p|, k, n) < Count(t)
    ensures Holds(t, y) && !Answers(t, |p|, k, n, y)
  {
    AllPeersDistinct(t, p, self);
    AllPeersCount(t);
    AnswerSizeIs(t, |p|, k, n);
    y := SomebodyMissing(AllPeers(t), Closest(t, |p|, k, n));
    HoldsIsStored(t, y);
    AnswersIsClosest(t, |p|, k, n, y);
  }

  lemma LoudAnswer(t: Trie, d: nat, k: Key, n: nat) returns (x: Peer)
    requires Fits(t, d) && !Quiet(t, d, k, n)
    ensures Holds(t, x) && Answers(t, d, k, n, x) && AnswerSize(t, d, k, n) > 0
  {
    AnswerSizeIs(t, d, k, n);
    x := Closest(t, d, k, n)[0];
    AnswersIsClosest(t, d, k, n, x);
    AnswersFromHeld(t, d, k, n, x);
  }

  /** A peer of the matching side is returned only by the query of that side. */
  lemma AnswersOnSide(t: Trie, p: Bits, self: Key, k: Key, n: nat, y: Peer)
    requires t.Joint? && Wf(t, p, self) && Fits(t, |p|) && Holds(t.Child(k[|p|]), y)
    ensures Answers(t, |p|, k, n, y) <==> Answers(t.Child(k[|p|]), |p| + 1, k, n, y)
  {
    var preferred, alternate := t.Child(k[|p|]), t.Child(!k[|p|]);
    if n < Count(preferred) && Answers(alternate, |p| + 1, k, Count(preferred) - n, y) {
      AnswersFromHeld(alternate, |p| + 1, k, Count(preferred) - n, y);
      PreferredIsCloser(t, p, self, k, y, y);
    }
  }

  /** A spill that keeps to the size bound pushes out a closer peer of another leaf. */
  lemma {:induction false} SpillOmitsCloser(t: Trie, p: Bits, self: Key, k: Key, n: nat) returns (x: Peer, y: Peer)
    requires Wf(t, p, self) && Fits(t, |p|) && Spills(t, |p|, k, n)
    requires AnswerSize(t, |p|, k, n) <= n
    ensures Answers(t, |p|, k, n, x) && Holds(t, x) && Holds(t, y) && !Answers(t, |p|, k, n, y)
    ensures !SameLeaf(t, |p|, x.key, y.key) && Dist(k, y.key) < Dist(k, x.key)
  {
    var bit := k[|p|];
    var preferred := t.Child(bit);
    if Spills(preferred, |p| + 1, k, n) {
      x, y := SpillOmitsCloser(preferred, p + [bit], self, k, n);
      SideBit(t, p, self, bit, x);
    } else {
      x := LoudAnswer(t.Child(!bit), |p| + 1, k, Count(preferred) - n);
      y := ShortAnswer(preferred, p + [bit], self, k, n);
      PreferredIsCloser(t, p, self, k, y, x);
      SideBit(t, p, self, !bit, x);
    }
    SideBit(t, p, self, bit, y);
    AnswersOnSide(t, p, self, k, n, y);
  }

  /**
   Exactly when the query as written meets the promise of its comment: nothing
   spills over, and the leaf of the search key holds either `n` peers or every
   peer of the table.
   */
  lemma ClosestIsRightExactly(t: Trie, self: Key, k: Key, n: nat)
    requires Wf(t, [], self) && Fits(t, 0)
    ensures LeafwiseNearest(t, k, n, Closest(t, 0, k, n)) <==>
            && !Spills(t, 0, k, n)
            && (n <= |Route(t, 0, k)| || |Route(t, 0, k)| == Count(t))
  {
    var r, b := Closest(t, 0, k, n), Route(t, 0, k);
    AnswerSizeIs(t, 0, k, n);
    if Spills(t, 0, k, n) {
      if |r| <= n {
        var x, y := SpillOmitsCloser(t, [], self, k, n);
        AnswersIsClosest(t, 0, k, n, x);
        AnswersIsClosest(t, 0, k, n, y);
        HoldsIsStored(t, y);
      }
    } else {
      WithoutSpill(t, 0, k, n);
      ClosestDistinct(t, [], self, k, n);
      forall x | x in b ensures x in AllPeers(t) {
        RouteIsStored(t, 0, k, x);
        HoldsIsStored(t, x);
      }
      RouteSize(t, 0, k);
      forall x, y | x in r && y in AllPeers(t)
        ensures SameLeaf(t, 0, x.key, y.key) || Dist(k, x.key) < Dist(k, y.key)
      {
        HoldsIsStored(t, y);
        RouteIsNearest(t, [], self, k, x, y);
      }
    }
  }
}
