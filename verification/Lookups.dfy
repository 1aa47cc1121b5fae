/**
 The iterative lookup of src/dht/session.cpp as a function of who answers what:
 `lookup_helper` (237-308) and the final pass of `node_lookup` (191-209).

 A lookup asks each key at most once, so the answers of the network during one
 lookup are a function from the peer that is asked to its reply.
 */
module Lookups {
  import opened Keys
  import opened Tries

  const PEER_LOOKUP_ALPHA: nat := 3
  const MAX_LOOKUP_ITERS: nat := KEYBITS

  /** A failed call, a list of peers, or (value lookups only) the chunk itself. */
  datatype Reply = NoAnswer | Nodes(peers: seq<Peer>) | Value(data: Bytes)

  type Net = Peer -> Reply

  // ---------- Lists of candidates ----------

  /** `find_node`: replies about self, by key or by endpoint, are skipped. */
  function Keep(self: Peer, ps: seq<Peer>): seq<Peer> {
    if ps == [] then []
    else (if ps[0].key == self.key || ps[0].endpoint == self.endpoint then [] else [ps[0]]) + Keep(self, ps[1..])
  }

  /** The first peer of each key not seen before. */
  function Dedupe(s: seq<Peer>, seen: set<Key>): seq<Peer> {
    if s == [] then []
    else if s[0].key in seen then Dedupe(s[1..], seen)
    else [s[0]] + Dedupe(s[1..], seen + {s[0].key})
  }

  function Place(x: Peer, s: seq<Peer>, k: Key): seq<Peer> {
    if s == [] || Dist(k, x.key) <= Dist(k, s[0].key) then [x] + s
    else [s[0]] + Place(x, s[1..], k)
  }

  /** `std::sort` with `StaticDistComparator(k)`. */
  function Sort(s: seq<Peer>, k: Key): seq<Peer> {
    if s == [] then [] else Place(s[0], Sort(s[1..], k), k)
  }

  function Trim(s: seq<Peer>): seq<Peer> {
    if |s| > KBUCKET_MAX then s[..KBUCKET_MAX] else s
  }

  /** The list a round ends with. */
  function Best(s: seq<Peer>, k: Key): seq<Peer> {
    Trim(Sort(Dedupe(s, {}), k))
  }

  // ---------- The lookup ----------

  datatype Swept = Swept(list: seq<Peer>, asked: seq<Peer>, found: Option<Bytes>)

  /** The inner loop from position `j` on, with `quota` successes to go; replies extend the list it walks. */
  function Sweep(self: Peer, net: Net, list: seq<Peer>, j: nat, quota: nat, asked: seq<Peer>): Swept
    requires j <= |list|
    decreases quota, |list| - j
  {
    if j == |list| || quota == 0 then Swept(list, asked, None)
    else if list[j].key in KeysOf(asked) then Sweep(self, net, list, j + 1, quota, asked)
    else
      match net(list[j])
      case NoAnswer => Sweep(self, net, list, j + 1, quota, asked + [list[j]])
      case Nodes(ps) => Sweep(self, net, list + Keep(self, ps), j + 1, quota - 1, asked + [list[j]])
      case Value(data) => Swept(list, asked + [list[j]], Some(data))
  }

  function Quota(list: seq<Peer>): nat {
    if |list| < PEER_LOOKUP_ALPHA then |list| else PEER_LOOKUP_ALPHA
  }

  /**
   How a lookup ends: with the value; with a candidate list, because a round
   brought nothing new (`early`) or the rounds ran out; or with the exception of
   `closest_peers.at(0)` on an empty list.
   */
  datatype Outcome =
    | Found(data: Bytes, asked: seq<Peer>)
    | Settled(list: seq<Peer>, asked: seq<Peer>, early: bool)
    | OutOfRange(asked: seq<Peer>)

  function Rounds(self: Peer, k: Key, net: Net, list: seq<Peer>, asked: seq<Peer>,
                  size: nat, minDist: nat, left: nat): Outcome
    decreases left
  {
    if left == 0 then Settled(list, asked, false)
    else
      var s := Sweep(self, net, list, 0, Quota(list), asked);
      if s.found.Some? then Found(s.found.value, s.asked)
      else
        var best := Best(s.list, k);
        if best == [] then OutOfRange(s.asked)
        else
          var d := Dist(k, best[0].key);
          if |best| <= size && d >= minDist then Settled(best, s.asked, true)
          else Rounds(self, k, net, best, s.asked, |best|, d, left - 1)
  }

  /** The default distance (all bits set), lowered by every local peer. */
  function MinDist(k: Key, local: seq<Peer>): nat {
    if local == [] then Pow2(KEYBITS) - 1
    else
      var m := MinDist(k, local[..|local| - 1]);
      var d := Dist(k, local[|local| - 1].key);
      if d < m then d else m
  }

  /** `lookup_helper` on a caller's list `start` and the router's answer `local`, with any cap on its rounds. */
  function LookupWithin(self: Peer, k: Key, net: Net, start: seq<Peer>, local: seq<Peer>, cap: nat): Outcome {
    Rounds(self, k, net, Sort(start + local, k), [], |start|, MinDist(k, local), cap)
  }

  /** `lookup_helper`. */
  function Lookup(self: Peer, k: Key, net: Net, start: seq<Peer>, local: seq<Peer>): Outcome {
    LookupWithin(self, k, net, start, local, MAX_LOOKUP_ITERS)
  }

  /** The final pass of `node_lookup`: ask the first `n` candidates again, then order and trim. */
  function FinalPass(self: Peer, net: Net, list: seq<Peer>, i: nat, n: nat): seq<Peer>
    requires i <= n <= |list|
    decreases n - i
  {
    if i == n then list
    else
      match net(list[i])
      case Nodes(ps) => FinalPass(self, net, list + Keep(self, ps), i + 1, n)
      case _ => FinalPass(self, net, list, i + 1, n)
  }

  /** `node_lookup`: none if the lookup throws. */
  function NodeLookup(self: Peer, k: Key, net: Net, again: Net, local: seq<Peer>): Option<seq<Peer>> {
    var o := Lookup(self, k, net, [], local);
    if o.Settled? then Some(Best(FinalPass(self, again, o.list, 0, |o.list|), k)) else None
  }

  // ---------- Facts about lists ----------

  ghost predicate Ascending(s: seq<Peer>, k: Key) {
    forall i, j :: 0 <= i < j < |s| ==> Dist(k, s[i].key) < Dist(k, s[j].key)
  }

  ghost predicate Sorted(s: seq<Peer>, k: Key) {
    forall i, j :: 0 <= i < j < |s| ==> Dist(k, s[i].key) <= Dist(k, s[j].key)
  }

  lemma {:induction false} PlaceMembers(x: Peer, s: seq<Peer>, k: Key)
    ensures multiset(Place(x, s, k)) == multiset{x} + multiset(s)
  {
    if s == [] || Dist(k, x.key) <= Dist(k, s[0].key) {
    } else {
      PlaceMembers(x, s[1..], k);
      assert s == [s[0]] + s[1..];
    }
  }

  lemma {:induction false} PlaceSorted(x: Peer, s: seq<Peer>, k: Key)
    requires Sorted(s, k)
    ensures Sorted(Place(x, s, k), k)
  {
    if s == [] || Dist(k, x.key) <= Dist(k, s[0].key) {
    } else {
      PlaceSorted(x, s[1..], k);
      var r := Place(x, s[1..], k);
      assert r[0] == x || r[0] == s[1];
      assert forall i :: 0 < i < |r| ==> Dist(k, r[0].key) <= Dist(k, r[i].key);
    }
  }

  lemma {:induction false} SortSorts(s: seq<Peer>, k: Key)
    ensures Sorted(Sort(s, k), k)
    ensures multiset(Sort(s, k)) == multiset(s)
  {
    if s != [] {
      SortSorts(s[1..], k);
      PlaceSorted(s[0], Sort(s[1..], k), k);
      PlaceMembers(s[0], Sort(s[1..], k), k);
      assert s == [s[0]] + s[1..];
    }
  }

  lemma SortMembers(s: seq<Peer>, k: Key)
    ensures |Sort(s, k)| == |s|
    ensures forall x :: x in Sort(s, k) <==> x in s
    ensures KeysOf(Sort(s, k)) == KeysOf(s)
  {
    SortSorts(s, k);
    assert |multiset(Sort(s, k))| == |multiset(s)|;
    forall x ensures x in Sort(s, k) <==> x in s {
      assert x in multiset(Sort(s, k)) <==> x in multiset(s);
    }
  }

  lemma {:induction false} DedupeMembers(s: seq<Peer>, seen: set<Key>)
    ensures DistinctKeys(Dedupe(s, seen))
    ensures KeysOf(Dedupe(s, seen)) == KeysOf(s) - seen
    ensures forall x :: x in Dedupe(s, seen) ==> x in s
  {
    if s != [] {
      assert s == [s[0]] + s[1..];
      assert KeysOf(s) == {s[0].key} + KeysOf(s[1..]);
      if s[0].key in seen {
        DedupeMembers(s[1..], seen);
      } else {
        var r := Dedupe(s[1..], seen + {s[0].key});
        DedupeMembers(s[1..], seen + {s[0].key});
        assert KeysOf([s[0]] + r) == {s[0].key} + KeysOf(r);
        forall i | 0 <= i < |r| ensures r[i].key != s[0].key {
          assert r[i].key in KeysOf(r);
        }
      }
    }
  }

  /** The peer is in the list, and is the first there of its key. */
  ghost predicate FirstOfItsKey(s: seq<Peer>, x: Peer) {
    exists i :: 0 <= i < |s| && s[i] == x && forall j :: 0 <= j < i ==> s[j].key != x.key
  }

  /** One peer more at the end stays exactly if its key is new. */
  lemma {:induction false} DedupeOneMore(s: seq<Peer>, x: Peer, seen: set<Key>)
    ensures Dedupe(s + [x], seen) == Dedupe(s, seen) + if x.key in seen || x.key in KeysOf(s) then [] else [x]
  {
    if s == [] {
      assert [x][1..] == [];
    } else {
      assert (s + [x])[1..] == s[1..] + [x];
      assert KeysOf(s) == {s[0].key} + KeysOf(s[1..]);
      DedupeOneMore(s[1..], x, if s[0].key in seen then seen else seen + {s[0].key});
    }
  }

  lemma FirstOfMore(s: seq<Peer>, last: Peer, x: Peer)
    ensures FirstOfItsKey(s + [last], x) <==> FirstOfItsKey(s, x) || (x == last && last.key !in KeysOf(s))
  {
    var more, n := s + [last], |s|;
    if FirstOfItsKey(s, x) {
      var i :| 0 <= i < n && s[i] == x && forall j :: 0 <= j < i ==> s[j].key != x.key;
      assert more[i] == x && forall j :: 0 <= j < i ==> more[j].key != x.key;
    }
    if x == last && last.key !in KeysOf(s) {
      assert forall j :: 0 <= j < n ==> more[j] in s;
      assert more[n] == last;
    }
    if FirstOfItsKey(more, x) {
      var i :| 0 <= i <= n && more[i] == x && forall j :: 0 <= j < i ==> more[j].key != x.key;
      assert forall j :: 0 <= j < n ==> s[j] == more[j];
      if i < n {
        assert s[i] == x && forall j :: 0 <= j < i ==> s[j].key != x.key;
      }
    }
  }

  /** Of each key that is new, the first peer stays, and nobody else. */
  lemma {:induction false} DedupeKeepsFirst(s: seq<Peer>, seen: set<Key>, x: Peer)
    ensures x in Dedupe(s, seen) <==> FirstOfItsKey(s, x) && x.key !in seen
  {
    if s != [] {
      hide FirstOfItsKey, KeysOf, Dedupe;
      var n := |s| - 1;
      assert s == s[..n] + [s[n]];
      DedupeOneMore(s[..n], s[n], seen);
      DedupeKeepsFirst(s[..n], seen, x);
      FirstOfMore(s[..n], s[n], x);
      if x == s[n] {
        FirstHasKey(s[..n], x);
      }
    }
  }

  lemma FirstHasKey(s: seq<Peer>, x: Peer)
    ensures FirstOfItsKey(s, x) ==> x.key in KeysOf(s)
  {
  }

  /** The start distance is that of the closest local peer, or the largest there is. */
  lemma {:induction false} MinDistMeans(k: Key, local: seq<Peer>)
    ensures forall x :: x in local ==> MinDist(k, local) <= Dist(k, x.key)
    ensures local == [] ==> MinDist(k, local) == Pow2(KEYBITS) - 1
    ensures local != [] ==> exists x :: x in local && MinDist(k, local) == Dist(k, x.key)
  {
    if local != [] {
      hide Dist, Pow2;
      var n := |local| - 1;
      MinDistMeans(k, local[..n]);
      assert local == local[..n] + [local[n]];
      DistBound(k, local[n].key);
    }
  }

  lemma DistBound(a: Key, b: Key)
    ensures Dist(a, b) <= Pow2(KEYBITS) - 1
  {
    hide Pow2;
    NumBound(Xor(a, b));
  }

  /** Sorting a duplicate-free list leaves no ties. */
  lemma SortDistinct(s: seq<Peer>, k: Key)
    requires DistinctKeys(s)
    ensures DistinctKeys(Sort(s, k)) && Ascending(Sort(s, k), k)
  {
    var r := Sort(s, k);
    SortSorts(s, k);
    SortMembers(s, k);
    DistinctCount(s);
    CountDistinct(r);
    forall i, j | 0 <= i < j < |r| ensures Dist(k, r[i].key) < Dist(k, r[j].key) {
      DistInjective(k, r[i].key, r[j].key);
    }
  }

  /** A list with as many keys as entries has no duplicates. */
  lemma {:induction false} CountDistinct(s: seq<Peer>)
    requires |KeysOf(s)| == |s|
    ensures DistinctKeys(s)
  {
    if s != [] {
      assert KeysOf(s) == {s[0].key} + KeysOf(s[1..]);
      KeysAtMost(s[1..]);
      CountDistinct(s[1..]);
      forall j | 0 < j < |s| ensures s[j].key != s[0].key {
        assert s[j] in s[1..];
      }
    }
  }

  // ---------- The K closest of a set of keys ----------

  /** `r` is the K closest keys of `s`, closest first. */
  ghost predicate IsTop(r: seq<Peer>, k: Key, s: set<Key>) {
    && Ascending(r, k)
    && |r| <= KBUCKET_MAX
    && KeysOf(r) <= s
    && forall u :: u in s && u !in KeysOf(r) ==>
         |r| == KBUCKET_MAX && forall i :: 0 <= i < |r| ==> Dist(k, r[i].key) < Dist(k, u)
  }

  function Closer(s: set<Key>, k: Key, d: nat): set<Key> {
    set u | u in s && Dist(k, u) < d
  }

  /** Nothing among the K closest of `s` is missing from the list. */
  ghost predicate Covers(list: seq<Peer>, k: Key, s: set<Key>) {
    && KeysOf(list) <= s
    && forall u :: u in s ==> u in KeysOf(list) || |Closer(KeysOf(list), k, Dist(k, u))| >= KBUCKET_MAX
  }

  lemma AscendingDistinct(s: seq<Peer>, k: Key)
    requires Ascending(s, k)
    ensures DistinctKeys(s)
  {
  }

  lemma TopCovers(r: seq<Peer>, k: Key, s: set<Key>)
    requires IsTop(r, k, s)
    ensures Covers(r, k, s)
  {
    forall u | u in s && u !in KeysOf(r) ensures |Closer(KeysOf(r), k, Dist(k, u))| >= KBUCKET_MAX {
      assert Closer(KeysOf(r), k, Dist(k, u)) == KeysOf(r);
      AscendingDistinct(r, k);
      DistinctCount(r);
    }
  }

  /** Peers may be added to the list, as long as they are added to the set too. */
  lemma CoversMore(list: seq<Peer>, more: seq<Peer>, k: Key, s: set<Key>)
    requires Covers(list, k, s)
    ensures Covers(list + more, k, s + KeysOf(more))
  {
    var l := list + more;
    assert KeysOf(l) == KeysOf(list) + KeysOf(more);
    forall u | u in s + KeysOf(more) && u !in KeysOf(l)
      ensures |Closer(KeysOf(l), k, Dist(k, u))| >= KBUCKET_MAX
    {
      SubsetSize(Closer(KeysOf(list), k, Dist(k, u)), Closer(KeysOf(l), k, Dist(k, u)));
    }
  }

  lemma KeyPosition(s: seq<Peer>, u: Key) returns (i: nat)
    requires u in KeysOf(s)
    ensures i < |s| && s[i].key == u
  {
    var x :| x in s && x.key == u;
    i :| 0 <= i < |s| && s[i] == x;
  }

  lemma {:induction false} PrefixKeys(s: seq<Peer>, i: nat)
    requires i <= |s|
    ensures |KeysOf(s[..i])| <= i
  {
    KeysAtMost(s[..i]);
  }

  /** What ordering, deduplicating and trimming does to any list. */
  lemma BestIsTrimmed(list: seq<Peer>, k: Key) returns (b: seq<Peer>)
    ensures Best(list, k) == Trim(b) && Ascending(b, k) && KeysOf(b) == KeysOf(list)
    ensures forall x :: x in b ==> x in list
    ensures forall x :: x in Best(list, k) ==> x in b
    ensures Ascending(Best(list, k), k) && |Best(list, k)| <= KBUCKET_MAX
  {
    var d := Dedupe(list, {});
    b := Sort(d, k);
    DedupeMembers(list, {});
    SortMembers(d, k);
    SortDistinct(d, k);
  }

  /** Ordering, deduplicating and trimming a covering list gives the K closest. */
  lemma BestIsTop(list: seq<Peer>, k: Key, s: set<Key>)
    requires Covers(list, k, s)
    ensures IsTop(Best(list, k), k, s)
  {
    hide Best;
    var b := BestIsTrimmed(list, k);
    forall u | u in s && u !in KeysOf(Best(list, k))
      ensures |Best(list, k)| == KBUCKET_MAX
      ensures forall i :: 0 <= i < |Best(list, k)| ==> Dist(k, Best(list, k)[i].key) < Dist(k, u)
    {
      TrimmedIsFarther(b, k, u);
    }
  }

  /** A key that an ascending list has beyond position K, or that K of its keys beat, is farther than the first K. */
  lemma TrimmedIsFarther(b: seq<Peer>, k: Key, u: Key)
    requires Ascending(b, k) && u !in KeysOf(Trim(b))
    requires u in KeysOf(b) || |Closer(KeysOf(b), k, Dist(k, u))| >= KBUCKET_MAX
    ensures |Trim(b)| == KBUCKET_MAX
    ensures forall i :: 0 <= i < KBUCKET_MAX ==> Dist(k, Trim(b)[i].key) < Dist(k, u)
  {
    var r := Trim(b);
    if u in KeysOf(b) {
      assert forall i :: 0 <= i < |r| ==> r[i] == b[i] && r[i] in r;
      var j := KeyPosition(b, u);
    } else {
      var c := Closer(KeysOf(b), k, Dist(k, u));
      SubsetSize(c, KeysOf(b));
      KeysAtMost(b);
      forall i | 0 <= i < KBUCKET_MAX ensures Dist(k, r[i].key) < Dist(k, u) {
        if Dist(k, b[i].key) >= Dist(k, u) {
          forall v | v in c ensures v in KeysOf(b[..i]) {
            var j := KeyPosition(b, v);
            assert j < i;
            assert b[..i][j] == b[j] && b[j] in b[..i];
          }
          SubsetSize(c, KeysOf(b[..i]));
          PrefixKeys(b, i);
          assert false;
        }
      }
    }
  }

  /** The K closest of a set are unique as keys. */
  lemma TopIsUnique(a: seq<Peer>, b: seq<Peer>, k: Key, s: set<Key>)
    requires IsTop(a, k, s) && IsTop(b, k, s)
    ensures KeysOf(a) == KeysOf(b) && |a| == |b|
  {
    AscendingDistinct(a, k);
    AscendingDistinct(b, k);
    DistinctCount(a);
    DistinctCount(b);
    TopIsIn(a, b, k, s);
    TopIsIn(b, a, k, s);
  }

  lemma TopIsIn(a: seq<Peer>, b: seq<Peer>, k: Key, s: set<Key>)
    requires IsTop(a, k, s) && IsTop(b, k, s) && |KeysOf(b)| == |b| && |KeysOf(a)| == |a|
    ensures KeysOf(a) <= KeysOf(b)
  {
    forall u | u in KeysOf(a) ensures u in KeysOf(b) {
      if u !in KeysOf(b) {
        var i := KeyPosition(a, u);
        forall v | v in KeysOf(b) ensures v in KeysOf(a) {
          var j := KeyPosition(b, v);
          assert Dist(k, b[j].key) < Dist(k, a[i].key);
        }
        SubsetSize(KeysOf(b), KeysOf(a));
        assert false;
      }
    }
  }
}
