/**
 What every lookup guarantees, whatever the network answers: its candidates are
 the K closest of everything it heard of, it asks no key twice, a found value
 comes from a peer it asked, and it ends without the round cap.
 */
module LookupFacts {
  import opened Keys
  import opened Tries
  import opened Lookups

  /** The keys a reply adds to the candidates. */
  function ReplyKeys(self: Peer, r: Reply): set<Key> {
    if r.Nodes? then KeysOf(Keep(self, r.peers)) else {}
  }

  /** Every key a lookup heard of: the keys it started with and those in the replies of the peers it asked. */
  function Gathered(self: Peer, net: Net, start: set<Key>, asked: seq<Peer>): set<Key> {
    if asked == [] then start
    else Gathered(self, net, start, asked[..|asked| - 1]) + ReplyKeys(self, net(asked[|asked| - 1]))
  }

  lemma GatheredMore(self: Peer, net: Net, start: set<Key>, asked: seq<Peer>, x: Peer)
    ensures Gathered(self, net, start, asked + [x]) == Gathered(self, net, start, asked) + ReplyKeys(self, net(x))
  {
    assert (asked + [x])[..|asked|] == asked;
  }

  lemma {:induction false} GatheredHas(self: Peer, net: Net, start: set<Key>, asked: seq<Peer>, x: Peer)
    requires x in asked
    ensures ReplyKeys(self, net(x)) <= Gathered(self, net, start, asked)
  {
    var n := |asked| - 1;
    if asked[n] != x {
      var i :| 0 <= i < |asked| && asked[i] == x;
      assert asked[..n][i] == x;
      GatheredHas(self, net, start, asked[..n], x);
    }
  }

  // ---------- One sweep ----------

  /** A sweep only adds to its list and to the peers it asked. */
  lemma {:induction false} SweepExtends(self: Peer, net: Net, list: seq<Peer>, j: nat, quota: nat, asked: seq<Peer>)
    requires j <= |list|
    ensures var s := Sweep(self, net, list, j, quota, asked); list <= s.list && asked <= s.asked
    decreases quota, |list| - j
  {
    if j < |list| && quota > 0 {
      if list[j].key in KeysOf(asked) {
        SweepExtends(self, net, list, j + 1, quota, asked);
      } else {
        match net(list[j])
        case NoAnswer => SweepExtends(self, net, list, j + 1, quota, asked + [list[j]]);
        case Nodes(ps) => SweepExtends(self, net, list + Keep(self, ps), j + 1, quota - 1, asked + [list[j]]);
        case Value(data) =>
      }
    }
  }

  /** Hearing of more peers keeps the K closest of everything heard of within the list. */
  lemma {:induction false} SweepCovers(self: Peer, k: Key, net: Net, start: set<Key>,
                                       list: seq<Peer>, j: nat, quota: nat, asked: seq<Peer>)
    requires j <= |list|
    requires Covers(list, k, Gathered(self, net, start, asked))
    ensures var s := Sweep(self, net, list, j, quota, asked);
      Covers(s.list, k, Gathered(self, net, start, s.asked))
    decreases quota, |list| - j
  {
    hide Keep, Covers, Gathered;
    if j < |list| && quota > 0 {
      if list[j].key in KeysOf(asked) {
        SweepCovers(self, k, net, start, list, j + 1, quota, asked);
      } else {
        GatheredMore(self, net, start, asked, list[j]);
        match net(list[j])
        case NoAnswer =>
          assert Gathered(self, net, start, asked + [list[j]]) == Gathered(self, net, start, asked);
          SweepCovers(self, k, net, start, list, j + 1, quota, asked + [list[j]]);
        case Nodes(ps) =>
          CoversMore(list, Keep(self, ps), k, Gathered(self, net, start, asked));
          SweepCovers(self, k, net, start, list + Keep(self, ps), j + 1, quota - 1, asked + [list[j]]);
        case Value(data) =>
          assert Gathered(self, net, start, asked + [list[j]]) == Gathered(self, net, start, asked);
      }
    }
  }

  function Successes(net: Net, asked: seq<Peer>): nat {
    if asked == [] then 0
    else Successes(net, asked[..|asked| - 1]) + if net(asked[|asked| - 1]).Nodes? then 1 else 0
  }

  /** No key is asked twice, and a sweep stops after `quota` peers have answered. */
  lemma {:induction false} SweepAsksOnce(self: Peer, net: Net, list: seq<Peer>, j: nat, quota: nat, asked: seq<Peer>)
    requires j <= |list| && DistinctKeys(asked)
    ensures var s := Sweep(self, net, list, j, quota, asked);
      DistinctKeys(s.asked) && Successes(net, s.asked) <= Successes(net, asked) + quota
    decreases quota, |list| - j
  {
    hide Keep;
    if j < |list| && quota > 0 {
      if list[j].key in KeysOf(asked) {
        SweepAsksOnce(self, net, list, j + 1, quota, asked);
      } else {
        var more := asked + [list[j]];
        assert more[..|asked|] == asked;
        forall i | 0 <= i < |asked| ensures asked[i].key != list[j].key {
          assert asked[i].key in KeysOf(asked);
        }
        match net(list[j])
        case NoAnswer => SweepAsksOnce(self, net, list, j + 1, quota, more);
        case Nodes(ps) => SweepAsksOnce(self, net, list + Keep(self, ps), j + 1, quota - 1, more);
        case Value(data) =>
      }
    }
  }

  /** No peer in the list has held the value so far. */
  ghost predicate NoValue(net: Net, asked: seq<Peer>) {
    forall x :: x in asked ==> !net(x).Value?
  }

  /** A sweep finds a value exactly when the last peer it asked sent it, and no peer before did. */
  lemma {:induction false} SweepFinds(self: Peer, net: Net, list: seq<Peer>, j: nat, quota: nat, asked: seq<Peer>)
    requires j <= |list| && NoValue(net, asked)
    ensures var s := Sweep(self, net, list, j, quota, asked);
      match s.found
      case None => NoValue(net, s.asked)
      case Some(data) =>
        && s.asked != [] && net(s.asked[|s.asked| - 1]) == Value(data)
        && NoValue(net, s.asked[..|s.asked| - 1])
    decreases quota, |list| - j
  {
    if j < |list| && quota > 0 {
      if list[j].key in KeysOf(asked) {
        SweepFinds(self, net, list, j + 1, quota, asked);
      } else {
        var more := asked + [list[j]];
        assert more[..|asked|] == asked;
        match net(list[j])
        case NoAnswer => SweepFinds(self, net, list, j + 1, quota, more);
        case Nodes(ps) => SweepFinds(self, net, list + Keep(self, ps), j + 1, quota - 1, more);
        case Value(data) =>
      }
    }
  }

  // ---------- All rounds ----------

  /** After any number of rounds, the candidates are the K closest of everything heard of. */
  lemma {:induction false} RoundsFindTop(self: Peer, k: Key, net: Net, start: set<Key>, list: seq<Peer>,
                                         asked: seq<Peer>, size: nat, minDist: nat, left: nat)
    requires Covers(list, k, Gathered(self, net, start, asked))
    requires left == 0 ==> IsTop(list, k, Gathered(self, net, start, asked))
    ensures var o := Rounds(self, k, net, list, asked, size, minDist, left);
      o.Settled? ==> IsTop(o.list, k, Gathered(self, net, start, o.asked))
    decreases left
  {
    hide Sweep, Best, Gathered, IsTop, Covers;
    if left > 0 {
      var s := Sweep(self, net, list, 0, Quota(list), asked);
      var best := Best(s.list, k);
      SweepCovers(self, k, net, start, list, 0, Quota(list), asked);
      BestIsTop(s.list, k, Gathered(self, net, start, s.asked));
      TopCovers(best, k, Gathered(self, net, start, s.asked));
      if s.found == None && best != [] {
        RoundsFindTop(self, k, net, start, best, s.asked, |best|, Dist(k, best[0].key), left - 1);
      }
    }
  }

  /** Incremental top-K is global top-K: trimming the list every round loses nothing. */
  lemma LookupFindsTop(self: Peer, k: Key, net: Net, start: seq<Peer>, local: seq<Peer>)
    ensures var o := Lookup(self, k, net, start, local);
      o.Settled? ==> IsTop(o.list, k, Gathered(self, net, KeysOf(start + local), o.asked))
  {
    var list := Sort(start + local, k);
    SortMembers(start + local, k);
    RoundsFindTop(self, k, net, KeysOf(start + local), list, [], |start|, MinDist(k, local), MAX_LOOKUP_ITERS);
  }

  lemma {:induction false} RoundsAskOnce(self: Peer, k: Key, net: Net, list: seq<Peer>, asked: seq<Peer>,
                                         size: nat, minDist: nat, left: nat)
    requires DistinctKeys(asked)
    ensures DistinctKeys(Rounds(self, k, net, list, asked, size, minDist, left).asked)
    decreases left
  {
    hide Sweep, Best;
    if left > 0 {
      var s := Sweep(self, net, list, 0, Quota(list), asked);
      SweepAsksOnce(self, net, list, 0, Quota(list), asked);
      var best := Best(s.list, k);
      if s.found == None && best != [] {
        RoundsAskOnce(self, k, net, best, s.asked, |best|, Dist(k, best[0].key), left - 1);
      }
    }
  }

  /** No lookup asks the same key twice. */
  lemma LookupAsksOnce(self: Peer, k: Key, net: Net, start: seq<Peer>, local: seq<Peer>)
    ensures DistinctKeys(Lookup(self, k, net, start, local).asked)
  {
    RoundsAskOnce(self, k, net, Sort(start + local, k), [], |start|, MinDist(k, local), MAX_LOOKUP_ITERS);
  }

  ghost predicate HonestOutcome(net: Net, o: Outcome) {
    match o
    case Found(data, asked) =>
      && asked != [] && net(asked[|asked| - 1]) == Value(data)
      && NoValue(net, asked[..|asked| - 1])
    case Settled(_, asked, _) => NoValue(net, asked)
    case OutOfRange(asked) => NoValue(net, asked)
  }

  lemma {:induction false} RoundsAreHonest(self: Peer, k: Key, net: Net, list: seq<Peer>, asked: seq<Peer>,
                                           size: nat, minDist: nat, left: nat)
    requires NoValue(net, asked)
    ensures HonestOutcome(net, Rounds(self, k, net, list, asked, size, minDist, left))
    decreases left
  {
    hide Sweep, Best;
    if left > 0 {
      var s := Sweep(self, net, list, 0, Quota(list), asked);
      SweepFinds(self, net, list, 0, Quota(list), asked);
      var best := Best(s.list, k);
      if s.found == None && best != [] {
        RoundsAreHonest(self, k, net, best, s.asked, |best|, Dist(k, best[0].key), left - 1);
      }
    }
  }

  /** A value comes from the last peer asked; without one, no peer that was asked had it. */
  lemma LookupIsHonest(self: Peer, k: Key, net: Net, start: seq<Peer>, local: seq<Peer>)
    ensures HonestOutcome(net, Lookup(self, k, net, start, local))
  {
    RoundsAreHonest(self, k, net, Sort(start + local, k), [], |start|, MinDist(k, local), MAX_LOOKUP_ITERS);
  }

  lemma {:induction false} FinalPassCovers(self: Peer, k: Key, again: Net, heard: set<Key>, list: seq<Peer>,
                                           i: nat, n: nat)
    requires i <= n <= |list|
    requires Covers(list, k, Gathered(self, again, heard, list[..i]))
    ensures Covers(FinalPass(self, again, list, i, n), k, Gathered(self, again, heard, list[..n]))
    decreases n - i
  {
    if i < n {
      hide Covers, Gathered, Keep;
      assert list[..i + 1] == list[..i] + [list[i]];
      GatheredMore(self, again, heard, list[..i], list[i]);
      match again(list[i])
      case Nodes(ps) =>
        var more := list + Keep(self, ps);
        CoversMore(list, Keep(self, ps), k, Gathered(self, again, heard, list[..i]));
        assert more[..i + 1] == list[..i + 1] && more[..n] == list[..n];
        FinalPassCovers(self, k, again, heard, more, i + 1, n);
      case _ =>
        assert Gathered(self, again, heard, list[..i]) + {} == Gathered(self, again, heard, list[..i]);
        FinalPassCovers(self, k, again, heard, list, i + 1, n);
    }
  }

  /** The final pass keeps it so: `node_lookup` returns the K closest of everything it ever heard of. */
  lemma NodeLookupFindsTop(self: Peer, k: Key, net: Net, again: Net, local: seq<Peer>)
    ensures var o := Lookup(self, k, net, [], local);
      match NodeLookup(self, k, net, again, local)
      case Some(r) =>
        && o.Settled?
        && IsTop(r, k, Gathered(self, again, Gathered(self, net, KeysOf(local), o.asked), o.list))
      case None => !o.Settled?
  {
    var o := Lookup(self, k, net, [], local);
    if o.Settled? {
      var heard := Gathered(self, net, KeysOf(local), o.asked);
      LookupFindsTop(self, k, net, [], local);
      assert [] + local == local;
      TopCovers(o.list, k, heard);
      assert o.list[..0] == [] && o.list[..|o.list|] == o.list;
      FinalPassCovers(self, k, again, heard, o.list, 0, |o.list|);
      BestIsTop(FinalPass(self, again, o.list, 0, |o.list|), k, Gathered(self, again, heard, o.list));
    }
  }

  lemma NodeLookupIsShort(self: Peer, k: Key, net: Net, again: Net, local: seq<Peer>)
    ensures NodeLookup(self, k, net, again, local).Some? ==>
      |NodeLookup(self, k, net, again, local).value| <= KBUCKET_MAX
  {
    hide Gathered, NodeLookup, Lookup;
    NodeLookupFindsTop(self, k, net, again, local);
  }

  // ---------- The exception ----------

  lemma BestNonEmpty(list: seq<Peer>, k: Key)
    ensures Best(list, k) == [] <==> list == []
  {
    var b := BestIsTrimmed(list, k);
    if list != [] {
      assert list[0].key in KeysOf(b);
    }
  }

  lemma {:induction false} RoundsStayInRange(self: Peer, k: Key, net: Net, list: seq<Peer>, asked: seq<Peer>,
                                             size: nat, minDist: nat, left: nat)
    requires list != []
    ensures !Rounds(self, k, net, list, asked, size, minDist, left).OutOfRange?
    decreases left
  {
    if left > 0 {
      var s := Sweep(self, net, list, 0, Quota(list), asked);
      SweepExtends(self, net, list, 0, Quota(list), asked);
      BestNonEmpty(s.list, k);
      var best := Best(s.list, k);
      if s.found == None {
        RoundsStayInRange(self, k, net, best, s.asked, |best|, Dist(k, best[0].key), left - 1);
      }
    }
  }

  /** `closest_peers.at(0)` throws exactly when the lookup starts with nobody. */
  lemma LookupThrowsExactly(self: Peer, k: Key, net: Net, start: seq<Peer>, local: seq<Peer>)
    ensures Lookup(self, k, net, start, local).OutOfRange? <==> start == [] && local == []
  {
    var list := Sort(start + local, k);
    SortMembers(start + local, k);
    if list != [] {
      RoundsStayInRange(self, k, net, list, [], |start|, MinDist(k, local), MAX_LOOKUP_ITERS);
    } else {
      BestNonEmpty([], k);
    }
  }

  lemma NodeLookupThrowsOnNobody(self: Peer, k: Key, net: Net, again: Net)
    ensures NodeLookup(self, k, net, again, []) == None
  {
    hide Lookup;
    LookupThrowsExactly(self, k, net, [], []);
  }

  // ---------- Ending without the cap ----------

  /** The head of the ordered list is a closest key of it. */
  lemma BestHead(list: seq<Peer>, k: Key, u: Key)
    requires u in KeysOf(list)
    ensures Best(list, k) != [] && Dist(k, Best(list, k)[0].key) <= Dist(k, u)
    ensures Best(list, k)[0] in list
  {
    var b := BestIsTrimmed(list, k);
    var i := KeyPosition(b, u);
    assert Best(list, k)[0] == b[0];
    assert b[0] in b;
  }

  lemma BestSize(list: seq<Peer>, k: Key)
    ensures |Best(list, k)| == if |KeysOf(list)| < KBUCKET_MAX then |KeysOf(list)| else KBUCKET_MAX
  {
    var b := BestIsTrimmed(list, k);
    AscendingDistinct(b, k);
    DistinctCount(b);
  }

  /**
   A round that does not end the lookup has more candidates or a closer one: list
   size never shrinks, minimum distance never grows, and their combined distance
   from the end strictly drops.
   */
  lemma ContinuingRoundProgresses(self: Peer, k: Key, net: Net, list: seq<Peer>, asked: seq<Peer>)
    requires list != [] && |list| <= KBUCKET_MAX && Ascending(list, k)
    ensures var s := Sweep(self, net, list, 0, Quota(list), asked);
      var best := Best(s.list, k);
      && best != [] && |list| <= |best| <= KBUCKET_MAX && Ascending(best, k)
      && Dist(k, best[0].key) <= Dist(k, list[0].key)
      && (!(|best| <= |list| && Dist(k, best[0].key) >= Dist(k, list[0].key)) ==>
            (KBUCKET_MAX - |best|) + Dist(k, best[0].key) < (KBUCKET_MAX - |list|) + Dist(k, list[0].key))
  {
    var s := Sweep(self, net, list, 0, Quota(list), asked);
    SweepExtends(self, net, list, 0, Quota(list), asked);
    assert forall x :: x in list ==> x in s.list;
    AscendingDistinct(list, k);
    DistinctCount(list);
    SubsetSize(KeysOf(list), KeysOf(s.list));
    BestSize(s.list, k);
    assert list[0] in list;
    BestHead(s.list, k, list[0].key);
    var b := BestIsTrimmed(s.list, k);
  }

  /** With more rounds than that distance left, the rounds end by themselves. */
  lemma {:induction false} RoundsEndByThemselves(self: Peer, k: Key, net: Net, list: seq<Peer>,
                                                 asked: seq<Peer>, left: nat)
    requires list != [] && |list| <= KBUCKET_MAX && Ascending(list, k)
    requires left > (KBUCKET_MAX - |list|) + Dist(k, list[0].key)
    ensures var o := Rounds(self, k, net, list, asked, |list|, Dist(k, list[0].key), left);
      o.Found? || (o.Settled? && o.early)
    decreases left
  {
    hide Sweep, Best;
    var s := Sweep(self, net, list, 0, Quota(list), asked);
    ContinuingRoundProgresses(self, k, net, list, asked);
    var best := Best(s.list, k);
    if s.found == None && !(|best| <= |list| && Dist(k, best[0].key) >= Dist(k, list[0].key)) {
      RoundsEndByThemselves(self, k, net, best, s.asked, left - 1);
    }
  }

  /**
   No lookup needs its cap to stop: whatever the network answers, with a cap beyond
   the largest distance it ends by its own test, by a value, or by the exception.
   */
  lemma LookupEndsByItself(self: Peer, k: Key, net: Net, start: seq<Peer>, local: seq<Peer>, cap: nat)
    requires cap > Pow2(KEYBITS) + KBUCKET_MAX
    ensures match LookupWithin(self, k, net, start, local, cap)
            case Found(_, _) => true
            case Settled(_, _, early) => early
            case OutOfRange(_) => start == [] && local == []
  {
    hide Sweep, Pow2;
    var list := Sort(start + local, k);
    SortMembers(start + local, k);
    var s := Sweep(self, net, list, 0, Quota(list), []);
    SweepExtends(self, net, list, 0, Quota(list), []);
    BestNonEmpty(s.list, k);
    var b := BestIsTrimmed(s.list, k);
    var best := Best(s.list, k);
    if s.found == None && best != [] {
      NumBound(Xor(k, best[0].key));
      RoundsEndByThemselves(self, k, net, best, s.asked, cap - 1);
    }
  }

  // ---------- Self ----------

  ghost predicate NotSelf(self: Peer, s: seq<Peer>) {
    forall x :: x in s ==> x.key != self.key && x.endpoint != self.endpoint
  }

  lemma {:induction false} KeepDropsSelf(self: Peer, ps: seq<Peer>)
    ensures NotSelf(self, Keep(self, ps))
    ensures forall x :: x in Keep(self, ps) <==> x in ps && x.key != self.key && x.endpoint != self.endpoint
  {
    if ps != [] {
      KeepDropsSelf(self, ps[1..]);
      assert ps == [ps[0]] + ps[1..];
    }
  }

  lemma {:induction false} SweepDropsSelf(self: Peer, net: Net, list: seq<Peer>, j: nat, quota: nat, asked: seq<Peer>)
    requires j <= |list| && NotSelf(self, list)
    ensures NotSelf(self, Sweep(self, net, list, j, quota, asked).list)
    decreases quota, |list| - j
  {
    if j < |list| && quota > 0 {
      if list[j].key in KeysOf(asked) {
        SweepDropsSelf(self, net, list, j + 1, quota, asked);
      } else {
        match net(list[j])
        case NoAnswer => SweepDropsSelf(self, net, list, j + 1, quota, asked + [list[j]]);
        case Nodes(ps) =>
          KeepDropsSelf(self, ps);
          SweepDropsSelf(self, net, list + Keep(self, ps), j + 1, quota - 1, asked + [list[j]]);
        case Value(data) =>
      }
    }
  }

  lemma {:induction false} RoundsDropSelf(self: Peer, k: Key, net: Net, list: seq<Peer>, asked: seq<Peer>,
                                          size: nat, minDist: nat, left: nat)
    requires NotSelf(self, list)
    ensures var o := Rounds(self, k, net, list, asked, size, minDist, left);
      o.Settled? ==> NotSelf(self, o.list)
    decreases left
  {
    hide Sweep, Best;
    if left > 0 {
      var s := Sweep(self, net, list, 0, Quota(list), asked);
      SweepDropsSelf(self, net, list, 0, Quota(list), asked);
      var b := BestIsTrimmed(s.list, k);
      var best := Best(s.list, k);
      if s.found == None && best != [] {
        RoundsDropSelf(self, k, net, best, s.asked, |best|, Dist(k, best[0].key), left - 1);
      }
    }
  }

  /** A lookup that starts without self never offers self as a candidate. */
  lemma LookupDropsSelf(self: Peer, k: Key, net: Net, start: seq<Peer>, local: seq<Peer>)
    requires NotSelf(self, start + local)
    ensures var o := Lookup(self, k, net, start, local); o.Settled? ==> NotSelf(self, o.list)
  {
    SortMembers(start + local, k);
    RoundsDropSelf(self, k, net, Sort(start + local, k), [], |start|, MinDist(k, local), MAX_LOOKUP_ITERS);
  }

  lemma {:induction false} FinalPassDropsSelf(self: Peer, again: Net, list: seq<Peer>, i: nat, n: nat)
    requires i <= n <= |list| && NotSelf(self, list)
    ensures NotSelf(self, FinalPass(self, again, list, i, n))
    decreases n - i
  {
    if i < n {
      match again(list[i])
      case Nodes(ps) =>
        KeepDropsSelf(self, ps);
        FinalPassDropsSelf(self, again, list + Keep(self, ps), i + 1, n);
      case _ => FinalPassDropsSelf(self, again, list, i + 1, n);
    }
  }

  /** Nor does a node lookup return it. */
  lemma NodeLookupDropsSelf(self: Peer, k: Key, net: Net, again: Net, local: seq<Peer>)
    requires NotSelf(self, local)
    ensures var r := NodeLookup(self, k, net, again, local); r.Some? ==> NotSelf(self, r.value)
  {
    hide Lookup, FinalPass, Best;
    assert [] + local == local;
    LookupDropsSelf(self, k, net, [], local);
    var o := Lookup(self, k, net, [], local);
    if o.Settled? {
      FinalPassDropsSelf(self, again, o.list, 0, |o.list|);
      var b := BestIsTrimmed(FinalPass(self, again, o.list, 0, |o.list|), k);
    }
  }
}
