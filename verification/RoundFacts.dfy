/**
 What a lookup does round by round (src/dht/session.cpp:255-307), said of the peers it
 asks, the replies it gets and the lists in between: whom a round asks and when it may
 stop, and when the next round follows.
 */
module RoundFacts {
  import opened Keys
  import opened Tries
  import opened Lookups
  import opened LookupFacts

  // ---------- One round ----------

  /** What these peers told, in order, without self. */
  function Heard(self: Peer, net: Net, asked: seq<Peer>): seq<Peer> {
    if asked == [] then []
    else
      var r := net(asked[|asked| - 1]);
      Heard(self, net, asked[..|asked| - 1]) + if r.Nodes? then Keep(self, r.peers) else []
  }

  /**
   From the candidates `start`, the peers asked since `before` are those of new keys
   among the first `e` of `list`, in order; and the list has grown by their replies.
   */
  ghost predicate AsksInOrder(self: Peer, net: Net, start: seq<Peer>, before: seq<Peer>, list: seq<Peer>,
                              asked: seq<Peer>, e: nat) {
    && before <= asked && e <= |list|
    && asked[|before|..] == Dedupe(list[..e], KeysOf(before))
    && list == start + Heard(self, net, asked[|before|..])
  }

  /**
   A round without a value: it stops only with everybody on its list asked, or with
   three lists gained, or as many as it had candidates if those were fewer.
   */
  ghost predicate IsRound(self: Peer, net: Net, start: seq<Peer>, before: seq<Peer>, list: seq<Peer>,
                          asked: seq<Peer>) {
    exists e: nat ::
      && AsksInOrder(self, net, start, before, list, asked, e)
      && NoValue(net, asked[|before|..])
      && GainsEnough(net, |start|, asked[|before|..], e == |list|)
  }

  ghost predicate GainsEnough(net: Net, n: nat, added: seq<Peer>, everybody: bool) {
    var enough := if n < 3 then n else 3;
    Successes(net, added) <= enough && (everybody || Successes(net, added) == enough)
  }

  /** A round that ends with the value, from the last peer it asked. */
  ghost predicate FindsValue(self: Peer, net: Net, start: seq<Peer>, before: seq<Peer>, data: Bytes, asked: seq<Peer>) {
    exists e: nat, list: seq<Peer> ::
      && AsksInOrder(self, net, start, before, list, asked, e)
      && EndsWithValue(net, |start|, asked[|before|..], data)
  }

  ghost predicate EndsWithValue(net: Net, n: nat, added: seq<Peer>, data: Bytes) {
    && added != [] && net(added[|added| - 1]) == Value(data) && NoValue(net, added[..|added| - 1])
    && Successes(net, added) < (if n < 3 then n else 3)
  }

  /** One peer more on the walk is passed over if its key was asked, and asked otherwise. */
  lemma WalkOne(self: Peer, net: Net, start: seq<Peer>, before: seq<Peer>, list: seq<Peer>, asked: seq<Peer>, j: nat)
    requires AsksInOrder(self, net, start, before, list, asked, j) && j < |list|
    ensures var x := list[j];
      if x.key in KeysOf(asked) then AsksInOrder(self, net, start, before, list, asked, j + 1)
      else
        var more := if net(x).Nodes? then list + Keep(self, net(x).peers) else list;
        && AsksInOrder(self, net, start, before, more, asked + [x], j + 1)
        && (asked + [x])[|before|..] == asked[|before|..] + [x]
  {
    hide Dedupe, Heard, KeysOf, Keep;
    var x, added := list[j], asked[|before|..];
    DedupeWalk(list, j, before, asked);
    if x.key in KeysOf(asked) {
      assert added + [] == added;
    } else {
      assert (asked + [x])[|before|..] == added + [x];
      HeardMore(self, net, start, added, x);
      var more := if net(x).Nodes? then list + Keep(self, net(x).peers) else list;
      assert more[..j + 1] == list[..j + 1];
    }
  }

  lemma DedupeWalk(list: seq<Peer>, j: nat, before: seq<Peer>, asked: seq<Peer>)
    requires j < |list| && before <= asked && asked[|before|..] == Dedupe(list[..j], KeysOf(before))
    ensures Dedupe(list[..j + 1], KeysOf(before)) ==
      asked[|before|..] + if list[j].key in KeysOf(asked) then [] else [list[j]]
  {
    var added := asked[|before|..];
    assert list[..j + 1] == list[..j] + [list[j]];
    DedupeOneMore(list[..j], list[j], KeysOf(before));
    DedupeMembers(list[..j], KeysOf(before));
    assert asked == before + added;
    KeysOfTwo(before, added);
  }

  lemma KeysOfTwo(a: seq<Peer>, b: seq<Peer>)
    ensures KeysOf(a + b) == KeysOf(a) + KeysOf(b)
  {
  }

  lemma HeardMore(self: Peer, net: Net, start: seq<Peer>, asked: seq<Peer>, x: Peer)
    ensures start + Heard(self, net, asked + [x]) ==
      (start + Heard(self, net, asked)) + if net(x).Nodes? then Keep(self, net(x).peers) else []
  {
    hide Keep;
    assert (asked + [x])[..|asked|] == asked;
  }

  lemma SuccessesOne(net: Net, added: seq<Peer>, x: Peer)
    ensures Successes(net, added + [x]) == Successes(net, added) + if net(x).Nodes? then 1 else 0
    ensures NoValue(net, added) && !net(x).Value? ==> NoValue(net, added + [x])
    ensures (added + [x])[..|added|] == added
  {
    assert (added + [x])[..|added|] == added;
  }

  /** What the walk of a round has done when it ends. */
  ghost predicate WalkEnds(self: Peer, net: Net, start: seq<Peer>, before: seq<Peer>, s: Swept, e: nat, total: nat) {
    && AsksInOrder(self, net, start, before, s.list, s.asked, e)
    && var added := s.asked[|before|..];
    match s.found
    case None =>
      && NoValue(net, added) && Successes(net, added) <= total
      && (e == |s.list| || Successes(net, added) == total)
    case Some(data) =>
      && added != [] && net(added[|added| - 1]) == Value(data) && NoValue(net, added[..|added| - 1])
      && Successes(net, added) < total
  }

  lemma {:induction false} SweepWalks(self: Peer, net: Net, start: seq<Peer>, before: seq<Peer>, list: seq<Peer>,
                                      j: nat, quota: nat, asked: seq<Peer>, total: nat)
    returns (e: nat)
    requires AsksInOrder(self, net, start, before, list, asked, j) && NoValue(net, asked[|before|..])
    requires Successes(net, asked[|before|..]) + quota == total
    ensures WalkEnds(self, net, start, before, Sweep(self, net, list, j, quota, asked), e, total)
    decreases quota, |list| - j
  {
    if j == |list| || quota == 0 {
      hide AsksInOrder, NoValue, Successes;
      OnTheWay(self, net, start, before, list, asked, j);
      e := j;
    } else {
      hide AsksInOrder, NoValue, Successes, Keep, KeysOf, WalkEnds;
      OnTheWay(self, net, start, before, list, asked, j);
      var x, added := list[j], asked[|before|..];
      WalkOne(self, net, start, before, list, asked, j);
      SuccessesOne(net, added, x);
      if x.key in KeysOf(asked) {
        e := SweepWalks(self, net, start, before, list, j + 1, quota, asked, total);
      } else {
        match net(x) {
          case NoAnswer => e := SweepWalks(self, net, start, before, list, j + 1, quota, asked + [x], total);
          case Nodes(ps) =>
            e := SweepWalks(self, net, start, before, list + Keep(self, ps), j + 1, quota - 1, asked + [x], total);
          case Value(data) =>
            e := j + 1;
            ValueEnds(self, net, start, before, list, asked, x, e, total, data);
        }
      }
    }
  }

  lemma ValueEnds(self: Peer, net: Net, start: seq<Peer>, before: seq<Peer>, list: seq<Peer>, asked: seq<Peer>, x: Peer,
                  e: nat, total: nat, data: Bytes)
    requires before <= asked && AsksInOrder(self, net, start, before, list, asked + [x], e)
    requires NoValue(net, asked[|before|..]) && Successes(net, asked[|before|..]) < total && net(x) == Value(data)
    ensures WalkEnds(self, net, start, before, Swept(list, asked + [x], Some(data)), e, total)
  {
    hide AsksInOrder;
    var added := asked[|before|..];
    assert (asked + [x])[|before|..] == added + [x];
    SuccessesOne(net, added, x);
  }

  lemma OnTheWay(self: Peer, net: Net, start: seq<Peer>, before: seq<Peer>, list: seq<Peer>, asked: seq<Peer>, j: nat)
    requires AsksInOrder(self, net, start, before, list, asked, j)
    ensures before <= asked && j <= |list|
  {
  }

  /** What a round of the loop is. */
  lemma RoundMeans(self: Peer, net: Net, start: seq<Peer>, before: seq<Peer>)
    ensures var s := Sweep(self, net, start, 0, Quota(start), before);
      match s.found
      case None => IsRound(self, net, start, before, s.list, s.asked)
      case Some(data) => FindsValue(self, net, start, before, data, s.asked)
  {
    hide Sweep;
    assert before[|before|..] == [] && start[..0] == [] && start + [] == start;
    var e := SweepWalks(self, net, start, before, start, 0, Quota(start), before, Quota(start));
  }

  // ---------- All rounds ----------

  /** Between two rounds: the candidates, whom it asked so far, and the size and distance to beat. */
  datatype Stage = Stage(list: seq<Peer>, asked: seq<Peer>, size: nat, dist: nat)

  /** The closest of these peers, closest first, each the first of its key. */
  ghost predicate Trimmed(best: seq<Peer>, list: seq<Peer>, k: Key) {
    IsTop(best, k, KeysOf(list)) && forall x :: x in best ==> FirstOfItsKey(list, x)
  }

  /** One round without a value takes stage `a` to stage `b`. */
  ghost predicate Leads(self: Peer, k: Key, net: Net, a: Stage, b: Stage) {
    && (exists list :: IsRound(self, net, a.list, a.asked, list, b.asked) && Trimmed(b.list, list, k))
    && b.list != [] && b.size == |b.list| && b.dist == Dist(k, b.list[0].key)
  }

  ghost predicate Better(a: Stage, b: Stage) {
    b.size > a.size || b.dist < a.dist
  }

  ghost predicate EndsAs(self: Peer, net: Net, z: Stage, rounds: nat, cap: nat, o: Outcome) {
    match o
    case Found(data, asked) => rounds < cap && FindsValue(self, net, z.list, z.asked, data, asked)
    case Settled(list, asked, early) =>
      z.list == list && z.asked == asked && if early then 0 < rounds <= cap else rounds == cap
    case OutOfRange(asked) => rounds < cap && z.list == [] && z.asked == asked
  }

  /**
   The stages of a lookup that ended as `o`: each leads to the next and is worse than
   it, except that a lookup that stops by its own test stops at the first that is not.
   */
  ghost predicate IsLookup(self: Peer, k: Key, net: Net, t: seq<Stage>, cap: nat, o: Outcome) {
    && t != [] && EndsAs(self, net, t[|t| - 1], |t| - 1, cap, o)
    && (forall i :: 0 <= i < |t| - 1 ==> Leads(self, k, net, t[i], t[i + 1]))
    && forall i :: 0 <= i < |t| - 1 ==> (Better(t[i], t[i + 1]) <==> !(o.Settled? && o.early && i == |t| - 2))
  }

  lemma BestIsTheFirst(list: seq<Peer>, k: Key)
    ensures Trimmed(Best(list, k), list, k)
  {
    hide Best, IsTop;
    TrimmedIsTop(list, k);
    forall x | x in Best(list, k) ensures FirstOfItsKey(list, x) {
      BestIsDeduped(list, k, x);
      DedupeKeepsFirst(list, {}, x);
    }
  }

  lemma TrimmedIsTop(list: seq<Peer>, k: Key)
    ensures IsTop(Best(list, k), k, KeysOf(list))
  {
    hide Best, IsTop;
    BestIsTop(list, k, KeysOf(list));
  }

  lemma BestIsDeduped(list: seq<Peer>, k: Key, x: Peer)
    requires x in Best(list, k)
    ensures x in Dedupe(list, {})
  {
    SortMembers(Dedupe(list, {}), k);
  }

  lemma EmptyStays(self: Peer, net: Net, k: Key, asked: seq<Peer>)
    ensures var s := Sweep(self, net, [], 0, 0, asked); s == Swept([], asked, None) && Best(s.list, k) == []
  {
  }

  lemma {:induction false} RoundsAreStages(self: Peer, k: Key, net: Net, list: seq<Peer>, asked: seq<Peer>,
                                           size: nat, minDist: nat, left: nat)
    returns (t: seq<Stage>)
    ensures IsLookup(self, k, net, t, left, Rounds(self, k, net, list, asked, size, minDist, left))
    ensures t[0] == Stage(list, asked, size, minDist)
    decreases left
  {
    hide Sweep, Best, IsRound, FindsValue, Trimmed;
    var a := Stage(list, asked, size, minDist);
    t := [a];
    if left > 0 {
      var s := Sweep(self, net, list, 0, Quota(list), asked);
      var best := Best(s.list, k);
      RoundMeans(self, net, list, asked);
      BestIsTheFirst(s.list, k);
      if s.found == None {
        if best == [] {
          NobodyLeft(self, k, net, list, asked);
        } else {
          var b := Stage(best, s.asked, |best|, Dist(k, best[0].key));
          assert Leads(self, k, net, a, b);
          if Better(a, b) {
            var rest := RoundsAreStages(self, k, net, best, s.asked, b.size, b.dist, left - 1);
            StageBefore(self, k, net, a, rest, left, Rounds(self, k, net, list, asked, size, minDist, left));
            t := [a] + rest;
          } else {
            t := [a, b];
          }
        }
      }
    }
  }

  lemma NobodyLeft(self: Peer, k: Key, net: Net, list: seq<Peer>, asked: seq<Peer>)
    requires Best(Sweep(self, net, list, 0, Quota(list), asked).list, k) == []
    ensures list == [] && Sweep(self, net, list, 0, Quota(list), asked).asked == asked
  {
    hide Best, Sweep;
    BestNonEmpty(Sweep(self, net, list, 0, Quota(list), asked).list, k);
    SweepExtends(self, net, list, 0, Quota(list), asked);
    EmptyStays(self, net, k, asked);
  }

  lemma StageBefore(self: Peer, k: Key, net: Net, a: Stage, rest: seq<Stage>, cap: nat, o: Outcome)
    requires cap > 0 && IsLookup(self, k, net, rest, cap - 1, o)
    requires Leads(self, k, net, a, rest[0]) && Better(a, rest[0])
    ensures IsLookup(self, k, net, [a] + rest, cap, o)
  {
    hide Leads, FindsValue;
    var t := [a] + rest;
    forall i | 0 <= i < |t| - 1
      ensures Leads(self, k, net, t[i], t[i + 1])
      ensures Better(t[i], t[i + 1]) <==> !(o.Settled? && o.early && i == |t| - 2)
    {
      if i > 0 {
        assert t[i] == rest[i - 1] && t[i + 1] == rest[i];
      }
    }
  }

  /**
   A lookup, stage by stage: it starts with the candidates sorted and nobody asked, and
   its rounds follow one another as `IsLookup` says, at most one for each bit of a key.
   */
  lemma LookupIsRounds(self: Peer, k: Key, net: Net, start: seq<Peer>, local: seq<Peer>) returns (t: seq<Stage>)
    ensures IsLookup(self, k, net, t, KEYBITS, Lookup(self, k, net, start, local))
    ensures Sorted(t[0].list, k) && multiset(t[0].list) == multiset(start + local)
    ensures t[0].asked == [] && t[0].size == |start| && t[0].dist == MinDist(k, local)
  {
    hide Rounds, Sort, MinDist;
    SortSorts(start + local, k);
    t := RoundsAreStages(self, k, net, Sort(start + local, k), [], |start|, MinDist(k, local), MAX_LOOKUP_ITERS);
  }

  // ---------- Whom a lookup asks in any case ----------

  lemma {:induction false} SuccessesAtMost(net: Net, asked: seq<Peer>)
    ensures Successes(net, asked) <= |asked|
  {
    if asked != [] {
      SuccessesAtMost(net, asked[..|asked| - 1]);
    }
  }

  /** A round asks each of the first three of a list without repeated keys, unless it finds a value before. */
  lemma RoundAsksThree(self: Peer, net: Net, start: seq<Peer>, list: seq<Peer>, asked: seq<Peer>, p: nat)
    requires IsRound(self, net, start, [], list, asked) && DistinctKeys(start) && p < |start| && p < 3
    ensures start[p] in asked
  {
    hide Dedupe, Heard, IsTop;
    assert asked[0..] == asked && KeysOf([]) == {};
    var e: nat :|
      && AsksInOrder(self, net, start, [], list, asked, e)
      && GainsEnough(net, |start|, asked[0..], e == |list|);
    SuccessesAtMost(net, asked);
    if e <= p {
      DedupeIsShort(list[..e], {});
    } else {
      assert list[..e][p] == start[p];
      forall j | 0 <= j < p ensures list[..e][j].key != start[p].key {
        assert list[j] == start[j];
      }
      assert FirstOfItsKey(list[..e], start[p]);
      DedupeKeepsFirst(list[..e], {}, start[p]);
    }
  }

  lemma {:induction false} DedupeIsShort(s: seq<Peer>, seen: set<Key>)
    ensures |Dedupe(s, seen)| <= |s|
  {
    if s != [] {
      DedupeIsShort(s[1..], if s[0].key in seen then seen else seen + {s[0].key});
    }
  }

  /** Nobody that was asked is forgotten. */
  lemma {:induction false} StagesOnlyAsk(self: Peer, k: Key, net: Net, t: seq<Stage>, cap: nat, o: Outcome, i: nat)
    requires IsLookup(self, k, net, t, cap, o) && i < |t|
    ensures t[i].asked <= o.asked
    decreases |t| - i
  {
    hide Trimmed, Better, Dedupe, Heard, NoValue, GainsEnough;
    if i < |t| - 1 {
      StagesOnlyAsk(self, k, net, t, cap, o, i + 1);
      assert Leads(self, k, net, t[i], t[i + 1]);
    }
  }

  /** How many of these peers are closer than `x`. */
  function CloserThan(local: seq<Peer>, k: Key, x: Peer): set<Key> {
    set y | y in local && Dist(k, y.key) < Dist(k, x.key) :: y.key
  }

  /**
   A lookup asks at least the three closest peers of the router's answer, unless it has
   found a value: one that has the value there is enough for `get`.
   */
  lemma NearestThreeAreAsked(self: Peer, k: Key, net: Net, local: seq<Peer>, x: Peer)
    requires DistinctKeys(local) && x in local && |CloserThan(local, k, x)| < 3
    ensures var o := Lookup(self, k, net, [], local); o.Found? || x in o.asked
    ensures net(x).Value? ==> Lookup(self, k, net, [], local).Found?
  {
    hide Lookup, IsRound, Trimmed, Better, FindsValue;
    var o := Lookup(self, k, net, [], local);
    var t := LookupIsRounds(self, k, net, [], local);
    assert [] + local == local;
    var p := PlaceOf(t[0].list, local, k, x);
    if !o.Found? {
      assert |t| > 1;
      assert Leads(self, k, net, t[0], t[1]);
      var list :| IsRound(self, net, t[0].list, t[0].asked, list, t[1].asked);
      RoundAsksThree(self, net, t[0].list, list, t[1].asked, p);
      StagesOnlyAsk(self, k, net, t, KEYBITS, o, 1);
    }
    LookupIsHonest(self, k, net, [], local);
  }

  /** In a sorted list the peers before one without repeated keys are the closer ones. */
  lemma PlaceOf(s: seq<Peer>, local: seq<Peer>, k: Key, x: Peer) returns (p: nat)
    requires Sorted(s, k) && multiset(s) == multiset(local) && DistinctKeys(local) && x in local
    requires |CloserThan(local, k, x)| < 3
    ensures p < |s| && p < 3 && s[p] == x && DistinctKeys(s)
  {
    hide Dist;
    SameMembers(s, local);
    p :| 0 <= p < |s| && s[p] == x;
    forall v | v in KeysOf(s[..p]) ensures v in CloserThan(local, k, x) {
      var y :| y in s[..p] && y.key == v;
      var i :| 0 <= i < p && s[i] == y;
      DistInjective(k, y.key, x.key);
    }
    assert DistinctKeys(s[..p]);
    DistinctCount(s[..p]);
    SubsetSize(KeysOf(s[..p]), CloserThan(local, k, x));
  }

  lemma SameMembers(s: seq<Peer>, local: seq<Peer>)
    requires multiset(s) == multiset(local) && DistinctKeys(local)
    ensures DistinctKeys(s) && forall x :: x in s <==> x in local
  {
    forall x ensures x in s <==> x in local {
      assert x in multiset(s) <==> x in multiset(local);
    }
    assert |multiset(s)| == |multiset(local)|;
    DistinctCount(local);
    assert KeysOf(s) == KeysOf(local);
    CountDistinct(s);
  }
}
