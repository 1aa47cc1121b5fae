/**
 A running node (src/dht/session.cpp, src/dht/rpc.cpp): its routing table, its
 local chunks and its count of dead peers, with the operations that change them.

 Remote calls are replaced by what they return: `net` says what each peer answers
 during a lookup, `answers` what a ping of a least recently used peer returns.
 */
module Sessions {
  import opened Keys
  import opened Tries
  import opened Queries
  import opened Runs
  import opened Routers
  import opened Lookups
  import LookupFacts
  import Convergence
  import opened Tables
  import opened Calls
  import Retrieval

  lemma {:induction false} KeepConcat(self: Peer, a: seq<Peer>, b: seq<Peer>)
    ensures Keep(self, a + b) == Keep(self, a) + Keep(self, b)
  {
    if a == [] {
      assert a + b == b;
    } else {
      assert (a + b)[1..] == a[1..] + b;
      KeepConcat(self, a[1..], b);
    }
  }

  lemma KeepMore(self: Peer, peers: seq<Peer>, i: nat)
    requires i < |peers|
    ensures var x := peers[i];
      Keep(self, peers[..i + 1]) ==
        if x.key == self.key || x.endpoint == self.endpoint then Keep(self, peers[..i])
        else Keep(self, peers[..i]) + [x]
  {
    assert peers[..i + 1] == peers[..i] + [peers[i]];
    KeepConcat(self, peers[..i], [peers[i]]);
  }

  /** One step of the inner loop of `lookup_helper`. */
  lemma SweepStep(self: Peer, net: Net, list: seq<Peer>, j: nat, quota: nat, asked: seq<Peer>)
    requires j < |list| && quota > 0
    ensures Sweep(self, net, list, j, quota, asked) ==
      if list[j].key in KeysOf(asked) then Sweep(self, net, list, j + 1, quota, asked)
      else
        match net(list[j])
        case NoAnswer => Sweep(self, net, list, j + 1, quota, asked + [list[j]])
        case Nodes(ps) => Sweep(self, net, list + Keep(self, ps), j + 1, quota - 1, asked + [list[j]])
        case Value(data) => Swept(list, asked + [list[j]], Some(data))
  {
  }

  lemma SweepStops(self: Peer, net: Net, list: seq<Peer>, j: nat, quota: nat, asked: seq<Peer>)
    requires j == |list| || (j <= |list| && quota == 0)
    ensures Sweep(self, net, list, j, quota, asked) == Swept(list, asked, None)
  {
  }

  /** One iteration of the outer loop of `lookup_helper`. */
  /** What a round that ended with `best` means for the lookup `o`. */
  lemma RoundStep(self: Peer, k: Key, net: Net, list: seq<Peer>, asked: seq<Peer>, size: nat, minDist: nat, left: nat,
                  s: Swept, best: seq<Peer>, o: Outcome)
    requires left > 0 && s == Sweep(self, net, list, 0, Quota(list), asked)
    requires s.found.None? ==> best == Best(s.list, k)
    requires o == Rounds(self, k, net, list, asked, size, minDist, left)
    ensures s.found.Some? ==> Ends(o, best, s.found, false) && o.asked == s.asked
    ensures s.found.None? && best == [] ==> Ends(o, best, None, true) && o.asked == s.asked == asked && list == []
    ensures s.found.None? && best != [] && |best| <= size && Dist(k, best[0].key) >= minDist ==>
      Ends(o, best, None, false) && o.asked == s.asked
    ensures s.found.None? && best != [] && !(|best| <= size && Dist(k, best[0].key) >= minDist) ==>
      o == Rounds(self, k, net, best, s.asked, |best|, Dist(k, best[0].key), left - 1)
  {
    hide Sweep, Best, Dist;
    EmptyRound(self, net, k, list, asked);
  }

  /** What the caller gets of a lookup: the value, the candidates or the exception. */
  ghost predicate Ends(o: Outcome, closest: seq<Peer>, found: Option<Bytes>, thrown: bool) {
    match o
    case Found(data, _) => found == Some(data) && !thrown
    case Settled(list, _, _) => found == None && !thrown && closest == list
    case OutOfRange(_) => found == None && thrown
  }

  lemma LookupStart(self: Peer, k: Key, net: Net, start: seq<Peer>, local: seq<Peer>)
    ensures Lookup(self, k, net, start, local) ==
      Rounds(self, k, net, Sort(start + local, k), [], |start|, MinDist(k, local), MAX_LOOKUP_ITERS)
  {
  }

  lemma RoundsEnd(self: Peer, k: Key, net: Net, list: seq<Peer>, asked: seq<Peer>, size: nat, minDist: nat)
    ensures Rounds(self, k, net, list, asked, size, minDist, 0) == Settled(list, asked, false)
    ensures Ends(Settled(list, asked, false), list, None, false)
  {
  }

  /** A round that starts with somebody ends with somebody. */
  lemma EmptyRound(self: Peer, net: Net, k: Key, list: seq<Peer>, asked: seq<Peer>)
    ensures list != [] ==> Best(Sweep(self, net, list, 0, Quota(list), asked).list, k) != []
    ensures list == [] ==> Sweep(self, net, list, 0, Quota(list), asked).asked == asked
  {
    SweepStops(self, net, [], 0, 0, asked);
    hide Best, Sweep;
    LookupFacts.SweepExtends(self, net, list, 0, Quota(list), asked);
    LookupFacts.BestNonEmpty(Sweep(self, net, list, 0, Quota(list), asked).list, k);
  }

  lemma FoundNothing(self: Peer, k: Key, net: Net, local: seq<Peer>)
    requires Convergence.NoValues(net)
    ensures !Lookup(self, k, net, [], local).Found?
  {
    hide Lookup;
    LookupFacts.LookupIsHonest(self, k, net, [], local);
  }

  lemma AskedForPeers(net: Net, x: Peer)
    requires Convergence.NoValues(net)
    ensures !net(x).Value?
  {
  }

  /** One question of the final pass. */
  lemma FinalStep(self: Peer, net: Net, list: seq<Peer>, i: nat, n: nat)
    requires i < n <= |list|
    ensures FinalPass(self, net, list, i, n) ==
      FinalPass(self, net, list + if net(list[i]).Nodes? then Keep(self, net(list[i]).peers) else [], i + 1, n)
  {
    assert list + [] == list;
  }

  lemma AskedKeys(asked: seq<Peer>, x: Peer)
    ensures KeysOf(asked + [x]) == KeysOf(asked) + {x.key}
  {
  }

  class Session {
    const self: Peer
    const router: Router
    var chunks: map<Key, Bytes>
    var deadPeers: nat

    ghost predicate Valid()
      reads this, router, router.nodes
    {
      router.Valid() && router.selfPeer == self && Sound(router.model, self)
    }

    constructor (self: Peer, other: Peer)
      ensures Valid() && this.self == self && chunks == map[] && deadPeers == 0
      ensures fresh(router) && fresh(router.nodes)
    {
      this.self := self;
      this.chunks := map[];
      this.deadPeers := 0;
      this.router := new Router(self, other);
    }

    // ---------- Peers ----------

    /** A failed ping evicts the peer. */
    method Ping(peer: Peer, answer: Option<Peer>) returns (reply: Option<Peer>)
      requires Valid()
      modifies router`model, router.nodes`kbucket, router.nodes`keyCount
      ensures Valid() && reply == answer
      ensures router.model == if answer.None? then EvictPeer(old(router.model), self, peer.key) else old(router.model)
    {
      if answer.None? {
        EvictPeerSound(router.model, self, peer.key);
        router.EvictPeer(peer.key);
      }
      reply := answer;
    }

    /**
     `update_peer`: the retry loop ends after at most two insertions and one
     eviction, and leaves the table as `Runs.UpdatePeer` says.
     */
    method UpdatePeer(x: Peer, answers: nat -> Option<Peer>)
      requires Valid()
      modifies this`deadPeers, router`model, router`at, router`nodes, router.nodes
      ensures Valid() && fresh(router.nodes - old(router.nodes))
      ensures old(Sound(router.model, self)) && router.model == Updated(old(router.model), self, x, answers(0))
      ensures deadPeers == old(deadPeers) + DeadPeers(old(router.model), self, x, answers(0))
    {
      hide Insert, Evict, Wf, Shallow, Fits, AttemptInsert, Tries.EvictPeer, Updated, DeadPeers, Sound, Router.Linked;
      ghost var was := router.model;
      UpdateSteps(was, self, x, answers(0));
      ghost var first := AttemptInsert(was, self, x);
      ghost var evicted := if first.Refused? then EvictPeer(first.t, self, first.lru.key) else was;
      var attempt := 0;
      while true
        invariant Valid() && fresh(router.nodes - old(router.nodes))
        invariant attempt <= 1 && deadPeers == old(deadPeers) + attempt
        invariant attempt == 0 ==> router.model == was
        invariant attempt == 1 ==> first.Refused? && router.model == evicted
        invariant attempt == 1 ==> !(answers(0).Some? && answers(0).value.key == first.lru.key)
        decreases 1 - attempt
      {
        AttemptInsertSound(router.model, self, x);
        var inserted, lru := router.AttemptInsertPeer(x);
        if inserted {
          return;
        }
        var reply := Ping(lru.value, answers(attempt));
        if reply.Some? && reply.value.key == lru.value.key {
          return;
        }
        router.EvictPeer(lru.value.key);
        deadPeers := deadPeers + 1;
        attempt := attempt + 1;
      }
    }

    /** Update every listed peer except self and append it to the buffer. */
    method Absorb(peers: seq<Peer>, answers: nat -> Option<Peer>, buffer: PeerBuffer)
      requires Valid()
      modifies this`deadPeers, router`model, router`at, router`nodes, router.nodes, buffer
      ensures Valid() && fresh(router.nodes - old(router.nodes))
      ensures buffer.peers == old(buffer.peers) + Keep(self, peers)
      ensures old(Sound(router.model, self))
      ensures router.model == UpdateAll(old(router.model), self, Keep(self, peers), answers)
      ensures deadPeers == old(deadPeers) + DeadInAll(old(router.model), self, Keep(self, peers), answers)
    {
      hide DeadInAll, DeadPeers, UpdateAll, Keep, Runs.UpdatePeer, Sound, Router.Linked;
      ghost var was := router.model;
      NoUpdates(was, self, peers, answers);
      ghost var done: seq<Peer> := [];
      var i, updates := 0, 0;
      while i < |peers|
        invariant i <= |peers| && updates == |done|
        invariant Valid() && fresh(router.nodes - old(router.nodes))
        invariant done == Keep(self, peers[..i])
        invariant buffer.peers == old(buffer.peers) + done
        invariant router.model == UpdateAll(was, self, done, answers)
        invariant deadPeers == old(deadPeers) + DeadInAll(was, self, done, answers)
      {
        var x := peers[i];
        KeepMore(self, peers, i);
        i := i + 1;
        if x.key == self.key || x.endpoint == self.endpoint {
          continue;
        }
        OneMoreUpdate(was, self, done, x, answers);
        var n := updates;
        UpdatePeer(x, _ => answers(n));
        buffer.peers := buffer.peers + [x];
        updates := updates + 1;
        done := done + [x];
      }
      assert peers[..i] == peers;
    }

    /**
     `find_node`: a failed call evicts the peer; an answer updates the receiver,
     then every listed peer except self, and appends those to the buffer.
     */
    method FindNode(peer: Peer, reply: Reply, contact: Contact, buffer: PeerBuffer) returns (ok: bool)
      requires Valid() && !reply.Value?
      modifies this`deadPeers, router`model, router`at, router`nodes, router.nodes, buffer
      ensures Valid() && fresh(router.nodes - old(router.nodes))
      ensures ok == reply.Nodes? && old(Sound(router.model, self))
      ensures buffer.peers == old(buffer.peers) + if reply.Nodes? then Keep(self, reply.peers) else []
      ensures router.model == AfterCall(old(router.model), self, peer, reply, contact)
      ensures deadPeers == old(deadPeers) + DeadInCall(old(router.model), self, reply, contact)
      ensures reply.NoAnswer? ==> AsMap(router.model) == AsMap(old(router.model)) - {peer.key}
    {
      hide DeadInAll, DeadPeers, UpdateAll, Keep, Runs.UpdatePeer, Router.Linked, AsMap;
      CallKeys(router.model, self, peer, reply, contact);
      assert buffer.peers + [] == buffer.peers;
      if reply.NoAnswer? {
        EvictPeerSound(router.model, self, peer.key);
        router.EvictPeer(peer.key);
        return false;
      }
      UpdatePeer(contact.receiver, _ => contact.receiverPing);
      Absorb(reply.peers, contact.pings, buffer);
      return true;
    }

    /** `find_value`: a value updates the receiver only; any other reply is that of `find_node`. */
    method FindValue(peer: Peer, reply: Reply, contact: Contact, buffer: PeerBuffer) returns (ok: bool,
                     data: Option<Bytes>)
      requires Valid()
      modifies this`deadPeers, router`model, router`at, router`nodes, router.nodes, buffer
      ensures Valid() && fresh(router.nodes - old(router.nodes)) && old(Sound(router.model, self))
      ensures ok == !reply.NoAnswer? && data == (if reply.Value? then Some(reply.data) else None)
      ensures buffer.peers == old(buffer.peers) + if reply.Nodes? then Keep(self, reply.peers) else []
      ensures router.model == AfterCall(old(router.model), self, peer, reply, contact)
      ensures deadPeers == old(deadPeers) + DeadInCall(old(router.model), self, reply, contact)
      ensures reply.NoAnswer? ==> AsMap(router.model) == AsMap(old(router.model)) - {peer.key}
    {
      hide DeadInAll, DeadPeers, UpdateAll, Keep, Updated, Router.Linked, AsMap;
      assert buffer.peers + [] == buffer.peers;
      match reply {
        case Value(bytes) =>
          UpdatePeer(contact.receiver, _ => contact.receiverPing);
          return true, Some(bytes);
        case _ =>
          ok := FindNode(peer, reply, contact, buffer);
          data := None;
      }
    }

    // ---------- Lookups ----------

    /** The first peer of each key, in order. */
    method Unique(list: seq<Peer>) returns (unique: seq<Peer>)
      ensures unique == Dedupe(list, {})
    {
      unique := [];
      var seen: set<Key> := {};
      var i := 0;
      while i < |list|
        invariant i <= |list|
        invariant unique + Dedupe(list[i..], seen) == Dedupe(list, {})
      {
        var x := list[i];
        assert list[i..][0] == x && list[i..][1..] == list[i + 1..];
        if x.key !in seen {
          Assoc(unique, [x], Dedupe(list[i + 1..], seen + {x.key}));
          unique := unique + [x];
          seen := seen + {x.key};
        }
        i := i + 1;
      }
    }

    /** The distance the first round has to beat. */
    method ClosestDistance(k: Key, local: seq<Peer>) returns (d: nat)
      ensures d == MinDist(k, local)
    {
      d := Pow2(KEYBITS) - 1;
      var i := 0;
      while i < |local|
        invariant i <= |local| && d == MinDist(k, local[..i])
      {
        assert local[..i + 1][..i] == local[..i];
        var e := Dist(k, local[i].key);
        if e < d {
          d := e;
        }
        i := i + 1;
      }
      assert local[..i] == local;
    }

    /**
     One round of queries: walk the list, which grows by the replies, until enough
     peers answered.  The table changes under the walk with every call and stays valid.
     */
    method AskClosest(net: Net, talk: Peer -> Contact, start: seq<Peer>, alreadyQueried: set<Key>,
                      ghost was: Trie, ghost askedBefore: seq<Peer>)
      returns (list: seq<Peer>, queried: set<Key>, found: Option<Bytes>)
      requires Valid() && alreadyQueried == KeysOf(askedBefore)
      requires Sound(was, self) && router.model == AfterCalls(was, self, askedBefore, net, talk)
      modifies this`deadPeers, router`model, router`at, router`nodes, router.nodes
      ensures Valid() && fresh(router.nodes - old(router.nodes))
      ensures var s := Sweep(self, net, start, 0, Quota(start), askedBefore);
        && list == s.list && found == s.found && (found.None? ==> queried == KeysOf(s.asked))
        && router.model == AfterCalls(was, self, s.asked, net, talk)
    {
      hide Keep, Router.Linked, Sound, Sweep, KeysOf, AfterCall, AfterCalls;
      queried, found := alreadyQueried, None;
      var closest := new PeerBuffer();
      closest.peers := start;
      ghost var asked := askedBefore;
      var lookupCtr, lookupCount := 0, if PEER_LOOKUP_ALPHA < |start| then PEER_LOOKUP_ALPHA else |start|;
      var j := 0;
      while j < |closest.peers|
        invariant j <= |closest.peers| && lookupCtr <= lookupCount == Quota(start) && found == None
        invariant Valid() && fresh(router.nodes - old(router.nodes)) && fresh(closest)
        invariant queried == KeysOf(asked) && router.model == AfterCalls(was, self, asked, net, talk)
        invariant Sweep(self, net, start, 0, Quota(start), askedBefore) ==
                  Sweep(self, net, closest.peers, j, lookupCount - lookupCtr, asked)
        decreases lookupCount - lookupCtr, |closest.peers| - j
      {
        if lookupCtr >= lookupCount {
          break;
        }
        var other := closest.peers[j];
        SweepStep(self, net, closest.peers, j, lookupCount - lookupCtr, asked);
        j := j + 1;
        if other.key in queried {
          continue;
        }
        AskedKeys(asked, other);
        OneMoreCall(was, self, asked, other, net, talk);
        assert closest.peers + [] == closest.peers;
        var ok;
        ok, found := FindValue(other, net(other), talk(other), closest);
        if ok {
          lookupCtr := lookupCtr + 1;
        }
        asked := asked + [other];
        if found.Some? {
          break;
        }
        queried := queried + {other.key};
      }
      list := closest.peers;
      if found.None? {
        SweepStops(self, net, list, j, lookupCount - lookupCtr, asked);
      }
    }

    /** Drop repeated keys, order by distance, keep the K closest. */
    method OrderAndTrim(list: seq<Peer>, k: Key) returns (best: seq<Peer>)
      ensures best == Best(list, k)
    {
      best := Unique(list);
      best := Sort(best, k);
      if |best| > KBUCKET_MAX {
        best := best[..KBUCKET_MAX];
      }
    }

    /** One round: ask, and unless a value was found, order and trim what is known now. */
    method Round(k: Key, net: Net, talk: Peer -> Contact, closest: seq<Peer>, alreadyQueried: set<Key>,
                 ghost was: Trie, ghost askedBefore: seq<Peer>)
      returns (best: seq<Peer>, queried: set<Key>, found: Option<Bytes>)
      requires Valid() && alreadyQueried == KeysOf(askedBefore)
      requires Sound(was, self) && router.model == AfterCalls(was, self, askedBefore, net, talk)
      modifies this`deadPeers, router`model, router`at, router`nodes, router.nodes
      ensures Valid() && fresh(router.nodes - old(router.nodes))
      ensures var s := Sweep(self, net, closest, 0, Quota(closest), askedBefore);
        && found == s.found && (found.None? ==> queried == KeysOf(s.asked) && best == Best(s.list, k))
        && router.model == AfterCalls(was, self, s.asked, net, talk)
    {
      hide Sweep, Best, Router.Linked, AfterCall, AfterCalls, Sound, KeysOf, Quota;
      best, queried, found := AskClosest(net, talk, closest, alreadyQueried, was, askedBefore);
      if found.None? {
        best := OrderAndTrim(best, k);
      }
    }

    /** The router's own answer. */
    method LocalClosest(k: Key) returns (local: seq<Peer>)
      requires Valid()
      ensures local == Closest(router.model, 0, k, KBUCKET_MAX)
    {
      hide Closest, Router.Linked;
      var buffer := new PeerBuffer();
      router.ClosestPeers(k, KBUCKET_MAX, buffer);
      assert buffer.peers == Closest(router.model, 0, k, KBUCKET_MAX);
      local := buffer.peers;
    }

    /** The rounds of `lookup_helper`, at most KEYBITS, from sorted candidates and what the first has to beat. */
    method AskRounds(k: Key, net: Net, talk: Peer -> Contact, candidates: seq<Peer>, startSize: nat, startDist: nat)
      returns (closest: seq<Peer>, found: Option<Bytes>, thrown: bool)
      requires Valid()
      modifies this`deadPeers, router`model, router`at, router`nodes, router.nodes
      ensures Valid() && fresh(router.nodes - old(router.nodes)) && old(Sound(router.model, self))
      ensures var o := Rounds(self, k, net, candidates, [], startSize, startDist, MAX_LOOKUP_ITERS);
        && Ends(o, closest, found, thrown) && (thrown ==> o.asked == [])
        && router.model == AfterCalls(old(router.model), self, o.asked, net, talk)
    {
      hide Rounds, Sweep, Best, Dist, Router.Linked, AfterCall, AfterCalls, Sound, Quota, Router.Valid, Ends;
      ghost var was, o := router.model, Rounds(self, k, net, candidates, [], startSize, startDist, MAX_LOOKUP_ITERS);
      NoCalls(was, self, net, talk);
      closest, found, thrown := candidates, None, false;
      ghost var asked := [];
      var queried: set<Key> := {};
      var size: nat, minDist: nat := startSize, startDist;
      var i := 0;
      while i < MAX_LOOKUP_ITERS
        invariant i <= MAX_LOOKUP_ITERS && queried == KeysOf(asked)
        invariant router.model == AfterCalls(was, self, asked, net, talk)
        invariant Valid() && fresh(router.nodes - old(router.nodes))
        invariant found == None && !thrown && (closest == [] ==> asked == [])
        invariant o == Rounds(self, k, net, closest, asked, size, minDist, MAX_LOOKUP_ITERS - i)
      {
        ghost var before, askedBefore := closest, asked;
        ghost var s := Sweep(self, net, before, 0, Quota(before), askedBefore);
        closest, queried, found := Round(k, net, talk, closest, queried, was, asked);
        RoundStep(self, k, net, before, askedBefore, size, minDist, MAX_LOOKUP_ITERS - i, s, closest, o);
        asked := s.asked;
        if found.Some? {
          break;
        }
        if |closest| == 0 {
          thrown := true;
          break;
        }
        var newMinDist := Dist(k, closest[0].key);
        if |closest| <= size && newMinDist >= minDist {
          break;
        }
        size, minDist := |closest|, newMinDist;
        i := i + 1;
      }
      if i == MAX_LOOKUP_ITERS {
        RoundsEnd(self, k, net, closest, asked, size, minDist);
      }
    }

    /**
     `lookup_helper`: rounds from the router's answer and the caller's list.  The
     candidates are those of the functional lookup from the table as it was at the
     start, whatever the queries do to the table; the table is what the calls to the
     peers that lookup asks make of it.
     */
    method LookupHelper(k: Key, net: Net, talk: Peer -> Contact, start: seq<Peer>)
      returns (closest: seq<Peer>, found: Option<Bytes>, thrown: bool)
      requires Valid()
      modifies this`deadPeers, router`model, router`at, router`nodes, router.nodes
      ensures Valid() && fresh(router.nodes - old(router.nodes)) && old(Sound(router.model, self))
      ensures thrown ==> router.model == old(router.model)
      ensures var o := Lookup(self, k, net, start, old(Closest(router.model, 0, k, KBUCKET_MAX)));
        && Ends(o, closest, found, thrown)
        && router.model == AfterCalls(old(router.model), self, o.asked, net, talk)
    {
      hide Lookup, Rounds, Closest, Sort, MinDist, Router.Linked, AfterCall, Wf, Shallow, Elsewhere, Fits;
      var local := LocalClosest(k);
      LookupStart(self, k, net, start, local);
      NoCalls(router.model, self, net, talk);
      var minDist := ClosestDistance(k, local);
      closest, found, thrown := AskRounds(k, net, talk, Sort(start + local, k), |start|, minDist);
    }

    /** The final pass of `node_lookup`: every candidate is asked once more; replies extend the list. */
    method AskAgain(list: seq<Peer>, again: Net, talkAgain: Peer -> Contact) returns (all: seq<Peer>)
      requires Valid() && Convergence.NoValues(again)
      modifies this`deadPeers, router`model, router`at, router`nodes, router.nodes
      ensures Valid() && fresh(router.nodes - old(router.nodes)) && old(Sound(router.model, self))
      ensures all == FinalPass(self, again, list, 0, |list|)
      ensures router.model == AfterCalls(old(router.model), self, list, again, talkAgain)
    {
      hide AfterCall, AfterCalls, Router.Linked, Keep, Convergence.NoValues, Sound;
      ghost var was := router.model;
      NoCalls(was, self, again, talkAgain);
      var closest := new PeerBuffer();
      closest.peers := list;
      var lookupCount := |closest.peers|;
      var i := 0;
      while i < lookupCount
        invariant Valid() && fresh(router.nodes - old(router.nodes)) && fresh(closest)
        invariant i <= lookupCount == |list| && lookupCount <= |closest.peers| && list <= closest.peers
        invariant router.model == AfterCalls(was, self, list[..i], again, talkAgain)
        invariant FinalPass(self, again, list, 0, |list|) == FinalPass(self, again, closest.peers, i, lookupCount)
      {
        var other := closest.peers[i];
        FinalStep(self, again, closest.peers, i, lookupCount);
        AskedForPeers(again, other);
        assert list[..i + 1] == list[..i] + [other];
        OneMoreCall(was, self, list[..i], other, again, talkAgain);
        var _ := FindNode(other, again(other), talkAgain(other), closest);
        i := i + 1;
      }
      assert list[..i] == list;
      all := closest.peers;
    }

    /** `node_lookup`: a lookup, a last question to every candidate, and the K closest of it all, never self. */
    method NodeLookup(k: Key, net: Net, again: Net, talk: Peer -> Contact, talkAgain: Peer -> Contact)
      returns (buffer: seq<Peer>, thrown: bool)
      requires Valid() && Convergence.NoValues(net) && Convergence.NoValues(again)
      modifies this`deadPeers, router`model, router`at, router`nodes, router.nodes
      ensures Valid() && fresh(router.nodes - old(router.nodes))
      ensures (if thrown then None else Some(buffer)) ==
              Lookups.NodeLookup(self, k, net, again, old(Closest(router.model, 0, k, KBUCKET_MAX)))
      ensures thrown <==> old(Closest(router.model, 0, k, KBUCKET_MAX)) == []
      ensures thrown ==> router.model == old(router.model)
      ensures !thrown ==> LookupFacts.NotSelf(self, buffer)
      ensures old(Sound(router.model, self))
      ensures router.model == AfterNodeLookup(old(router.model), self, k, net, again, talk, talkAgain)
    {
      ghost var was := router.model;
      hide AfterCall, AfterCalls, AfterNodeLookup, Sound;
      hide Lookup, Best, Closest, Router.Linked, Keep, LookupFacts.NotSelf, Convergence.NoValues, Wf, Shallow,
        Elsewhere, Fits;
      ghost var local := Closest(router.model, 0, k, KBUCKET_MAX);
      LookupFacts.LookupThrowsExactly(self, k, net, [], local);
      NodeLookupTable(was, self, k, net, again, talk, talkAgain);
      LookupsNeverOfferSelf(router.model, self, k, net, again);
      var found;
      buffer, found, thrown := LookupHelper(k, net, talk, []);
      FoundNothing(self, k, net, local);
      if thrown {
        return;
      }
      buffer := AskAgain(buffer, again, talkAgain);
      buffer := OrderAndTrim(buffer, k);
    }

    // ---------- Chunks ----------

    /** `store`: a failed first call evicts the peer; each call that goes on updates the receiver. */
    method Store(peer: Peer, reply: StoreReply, force: bool, contact: Contact) returns (ok: bool)
      requires Valid()
      modifies this`deadPeers, router`model, router`at, router`nodes, router.nodes
      ensures Valid() && fresh(router.nodes - old(router.nodes)) && old(Sound(router.model, self))
      ensures ok <==> reply.Answered? && (reply.stored || (!reply.continueStore && !force))
      ensures router.model == AfterStore(old(router.model), self, peer, reply, force, contact)
      ensures reply.Unreachable? ==> AsMap(router.model) == AsMap(old(router.model)) - {peer.key}
    {
      hide AsMap;
      StoreKeys(router.model, self, peer, reply, force, contact);
      hide Router.Linked, Updated;
      if reply.Unreachable? {
        EvictPeerSound(router.model, self, peer.key);
        router.EvictPeer(peer.key);
        return false;
      }
      if !reply.continueStore && !force {
        return true;
      }
      UpdatePeer(contact.receiver, _ => contact.pings(0));
      if !reply.stored {
        return false;
      }
      UpdatePeer(contact.receiver, _ => contact.pings(1));
      return true;
    }

    /**
     `publish`: send the chunk to every peer the lookup returned, and keep a local
     copy.  The copy is always kept, whatever the calls do to the table; only an empty
     answer of the router, on which the lookup throws, leaves everything as it was.
     */
    method Publish(k: Key, data: Bytes, force: bool, net: Net, again: Net, talk: Peer -> Contact,
                   talkAgain: Peer -> Contact, stores: Peer -> StoreReply, talkStore: Peer -> Contact)
      returns (targets: seq<Peer>, thrown: bool)
      requires Valid() && Convergence.NoValues(net) && Convergence.NoValues(again)
      modifies this`chunks, this`deadPeers, router`model, router`at, router`nodes, router.nodes
      ensures Valid() && fresh(router.nodes - old(router.nodes))
      ensures thrown <==> old(Closest(router.model, 0, k, KBUCKET_MAX)) == []
      ensures thrown ==> chunks == old(chunks) && router.model == old(router.model)
      ensures !thrown ==> chunks == old(chunks)[k := data]
      ensures !thrown ==>
        Lookups.NodeLookup(self, k, net, again, old(Closest(router.model, 0, k, KBUCKET_MAX))) == Some(targets)
      ensures old(Sound(router.model, self))
      ensures !thrown ==>
        router.model == AfterStores(AfterNodeLookup(old(router.model), self, k, net, again, talk, talkAgain),
                                    self, targets, stores, force, talkStore)
    {
      hide AfterNodeLookup, AfterStore, AfterStores;
      hide Lookups.NodeLookup, Closest, Dist, Router.Linked, Convergence.NoValues, Wf, Shallow, Elsewhere, Fits;
      var buffer;
      targets := [];
      LookupFacts.NodeLookupIsShort(self, k, net, again, Closest(router.model, 0, k, KBUCKET_MAX));
      buffer, thrown := NodeLookup(k, net, again, talk, talkAgain);
      if thrown {
        return;
      }
      ghost var mid := router.model;
      OneMoreStore(mid, self, [], self, stores, force, talkStore);
      var maxDist := 0;
      var i := 0;
      while i < KBUCKET_MAX && i < |buffer|
        invariant i <= KBUCKET_MAX && i <= |buffer| && targets == buffer[..i]
        invariant Valid() && fresh(router.nodes - old(router.nodes)) && chunks == old(chunks)
        invariant router.model == AfterStores(mid, self, targets, stores, force, talkStore)
      {
        OneMoreStore(mid, self, targets, buffer[i], stores, force, talkStore);
        targets := targets + [buffer[i]];
        var _ := Store(buffer[i], stores(buffer[i]), force, talkStore(buffer[i]));
        var d := Dist(k, buffer[i].key);
        maxDist := if maxDist < d then d else maxDist;
        i := i + 1;
      }
      var ownDist := Dist(k, self.key);
      if |buffer| <= KBUCKET_MAX || maxDist >= ownDist {
        chunks := chunks[k := data];
      }
      assert targets == buffer;
    }

    /** `get`: the local copy if there is one, else whatever a value lookup finds. */
    method Get(k: Key, net: Net, talk: Peer -> Contact) returns (data: Option<Bytes>, thrown: bool)
      requires Valid()
      modifies this`deadPeers, router`model, router`at, router`nodes, router.nodes
      ensures Valid() && fresh(router.nodes - old(router.nodes))
      ensures data == Retrieval.Get(chunks, self, k, net, old(Closest(router.model, 0, k, KBUCKET_MAX)))
      ensures thrown <==> k !in chunks && old(Closest(router.model, 0, k, KBUCKET_MAX)) == []
      ensures old(Sound(router.model, self))
      ensures router.model ==
              if k in chunks then old(router.model)
              else AfterCalls(old(router.model), self,
                              Lookup(self, k, net, [], old(Closest(router.model, 0, k, KBUCKET_MAX))).asked, net, talk)
    {
      hide Lookup, Closest, Router.Linked;
      if k in chunks {
        return Some(chunks[k]), false;
      }
      LookupFacts.LookupThrowsExactly(self, k, net, [], Closest(router.model, 0, k, KBUCKET_MAX));
      var closest;
      closest, data, thrown := LookupHelper(k, net, talk, []);
    }

    /**
     One pass of the republish thread over the chunks that are `stale`: each is erased
     and published again.  `log` is what it sent, one publish for every stale key, each
     to the peers its lookup returned from the table as the publishes before had left
     it.  The pass ends with the same map, unless that table has no answer for the next
     stale key: then the lookup throws and the pass dies with that chunk gone
     (`Protocol.Throw`; no code catches the exception, so the process ends with it, and
     its nodes leave: `Protocol.Depart`).
     */
    method Republish(stale: Key -> bool, w: Key -> Exchange) returns (thrown: bool, ghost log: seq<Sent>)
      requires Valid() && forall k :: Convergence.NoValues(w(k).net) && Convergence.NoValues(w(k).again)
      modifies this`chunks, this`deadPeers, router`model, router`at, router`nodes, router.nodes
      ensures Valid() && fresh(router.nodes - old(router.nodes)) && old(Sound(router.model, self))
      ensures IsPass(old(router.model), self, log, w, set k | k in old(chunks) && stale(k))
      ensures router.model == AfterPass(old(router.model), self, log, w)
      ensures !thrown ==> chunks == old(chunks) && forall k :: k in old(chunks) && stale(k) ==> Logged(log, k)
      ensures thrown ==>
        exists k :: k in old(chunks) && stale(k) && !Logged(log, k) && Closest(router.model, 0, k, KBUCKET_MAX) == [] &&
          chunks == old(chunks) - {k}
    {
      hide Closest, Convergence.NoValues, Router.Linked, AfterPass, IsPass, Lookups.NodeLookup, AfterNodeLookup,
        AfterStores, Logged;
      thrown, log := false, [];
      ghost var was := router.model;
      ghost var all := set k | k in chunks && stale(k);
      var keys := set k | k in chunks && stale(k);
      EmptyPass(was, self, w, all);
      while keys != {}
        invariant chunks == old(chunks) && Valid() && fresh(router.nodes - old(router.nodes)) && !thrown
        invariant keys <= all && IsPass(was, self, log, w, all) && router.model == AfterPass(was, self, log, w)
        invariant forall k :: k in all ==> (Logged(log, k) <==> k !in keys)
        decreases keys
      {
        var k :| k in keys;
        var data := chunks[k];
        chunks := chunks - {k};
        var x := w(k);
        var targets, threw := Publish(k, data, false, x.net, x.again, x.talk, x.talkAgain, x.stores, x.talkStore);
        if threw {
          return true, log;
        }
        assert chunks == old(chunks);
        OneMorePublish(was, self, log, Sent(k, targets), w, all);
        log := log + [Sent(k, targets)];
        keys := keys - {k};
      }
    }

    // ---------- Handlers of remote calls ----------

    /** `StoreInit`: ask for the data exactly if the chunk is not here. */
    method HandleStoreInit(sender: Peer, k: Key, answer: Option<Peer>) returns (continueStore: bool)
      requires Valid()
      modifies this`deadPeers, router`model, router`at, router`nodes, router.nodes
      ensures Valid() && fresh(router.nodes - old(router.nodes))
      ensures old(Sound(router.model, self)) && router.model == Updated(old(router.model), self, sender, answer)
      ensures deadPeers == old(deadPeers) + DeadPeers(old(router.model), self, sender, answer)
      ensures continueStore <==> k !in chunks
    {
      UpdatePeer(sender, _ => answer);
      continueStore := k !in chunks;
    }

    /** `Store`: keep the chunk, whatever was there. */
    method HandleStore(sender: Peer, k: Key, data: Bytes, answer: Option<Peer>)
      requires Valid()
      modifies this`deadPeers, this`chunks, router`model, router`at, router`nodes, router.nodes
      ensures Valid() && fresh(router.nodes - old(router.nodes))
      ensures old(Sound(router.model, self)) && router.model == Updated(old(router.model), self, sender, answer)
      ensures deadPeers == old(deadPeers) + DeadPeers(old(router.model), self, sender, answer)
      ensures chunks == old(chunks)[k := data]
    {
      UpdatePeer(sender, _ => answer);
      chunks := chunks[k := data];
    }

    /** `FindValue`: the chunk if it is here, else the peers the router has for the key. */
    method HandleFindValue(sender: Peer, k: Key, answer: Option<Peer>) returns (reply: Reply)
      requires Valid()
      modifies this`deadPeers, router`model, router`at, router`nodes, router.nodes
      ensures Valid() && fresh(router.nodes - old(router.nodes))
      ensures old(Sound(router.model, self)) && router.model == Updated(old(router.model), self, sender, answer)
      ensures deadPeers == old(deadPeers) + DeadPeers(old(router.model), self, sender, answer)
      ensures reply == if k in chunks then Value(chunks[k]) else Nodes(Closest(router.model, 0, k, KBUCKET_MAX))
    {
      UpdatePeer(sender, _ => answer);
      if k in chunks {
        return Value(chunks[k]);
      }
      var peers := LocalClosest(k);
      reply := Nodes(peers);
    }
  }
}
