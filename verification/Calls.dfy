/**
 What the calls a node makes do to its own routing table (src/dht/rpc.cpp:272-403,
 480-506): whom a call brings in, and whom it drops.  How a call goes, what the peer
 replies and what the pings return that updates cause are parameters.
 */
module Calls {
  import opened Keys
  import opened Tries
  import opened Queries
  import opened Runs
  import opened Lookups
  import LookupFacts

  /** What else comes with a reply: who the peer says it is, and what pings return that updates cause. */
  datatype Contact = Contact(receiver: Peer, receiverPing: Option<Peer>, pings: nat -> Option<Peer>)

  /** How the two calls of a `store` go. */
  datatype StoreReply = Unreachable | Answered(continueStore: bool, stored: bool)

  /** The table after `update_peer`. */
  ghost function Updated(t: Trie, self: Peer, x: Peer, answer: Option<Peer>): (u: Trie)
    requires Sound(t, self)
    ensures Sound(u, self)
  {
    UpdatePeerRefinesMap(t, self, x, answer);
    Runs.UpdatePeer(t, self, x, answer).0
  }

  /** How many dead peers `update_peer` counts. */
  ghost function DeadPeers(t: Trie, self: Peer, x: Peer, answer: Option<Peer>): nat
    requires Sound(t, self)
  {
    UpdatePeerRefinesMap(t, self, x, answer);
    Runs.UpdatePeer(t, self, x, answer).1
  }

  /** The outcome of `update_peer`, by what its attempts return. */
  lemma UpdateSteps(t: Trie, self: Peer, x: Peer, answer: Option<Peer>)
    requires Sound(t, self)
    ensures Fits(t, 0)
    ensures var r := AttemptInsert(t, self, x);
      match r
      case Inserted(u) => Updated(t, self, x, answer) == u && DeadPeers(t, self, x, answer) == 0
      case Refused(u, lru) =>
        && Sound(u, self) && Fits(u, 0) && Sound(EvictPeer(u, self, lru.key), self)
        && EvictPeer(EvictPeer(u, self, lru.key), self, lru.key) == EvictPeer(u, self, lru.key)
        && var again := AttemptInsert(EvictPeer(u, self, lru.key), self, x);
        again.Inserted? &&
        if answer.Some? && answer.value.key == lru.key
        then Updated(t, self, x, answer) == u && DeadPeers(t, self, x, answer) == 0
        else Updated(t, self, x, answer) == again.t && DeadPeers(t, self, x, answer) == 1
  {
    hide AttemptInsert, EvictPeer, Wf, Shallow, Fits, AsMap;
    AttemptInsertSound(t, self, x);
    UpdatePeerRefinesMap(t, self, x, answer);
    var r := AttemptInsert(t, self, x);
    if r.Refused? {
      SecondAttemptInserts(t, self, x);
      PingThenEvict(r.t, self, r.lru.key);
    }
  }

  /** Updating several peers one after the other; the i-th update may ping once, with reply `answers(i)`. */
  ghost function UpdateAll(t: Trie, self: Peer, xs: seq<Peer>, answers: nat -> Option<Peer>): (u: Trie)
    requires Sound(t, self)
    ensures Sound(u, self)
  {
    if xs == [] then t
    else Updated(UpdateAll(t, self, xs[..|xs| - 1], answers), self, xs[|xs| - 1], answers(|xs| - 1))
  }

  /** The table after one `find_node` or `find_value`, by how the call goes. */
  ghost function AfterCall(t: Trie, self: Peer, peer: Peer, reply: Reply, contact: Contact): (u: Trie)
    requires Sound(t, self)
    ensures Sound(u, self)
  {
    match reply
    case NoAnswer =>
      EvictPeerSound(t, self, peer.key);
      EvictPeer(t, self, peer.key)
    case Value(_) => Updated(t, self, contact.receiver, contact.receiverPing)
    case Nodes(ps) =>
      UpdateAll(Updated(t, self, contact.receiver, contact.receiverPing), self, Keep(self, ps), contact.pings)
  }

  /** How many dead peers these updates count. */
  ghost function DeadInAll(t: Trie, self: Peer, xs: seq<Peer>, answers: nat -> Option<Peer>): nat
    requires Sound(t, self)
  {
    if xs == [] then 0
    else
      var n := |xs| - 1;
      DeadInAll(t, self, xs[..n], answers) + DeadPeers(UpdateAll(t, self, xs[..n], answers), self, xs[n], answers(n))
  }

  /** How many a call counts: none of its own, only those of the updates it causes. */
  ghost function DeadInCall(t: Trie, self: Peer, reply: Reply, contact: Contact): nat
    requires Sound(t, self)
  {
    match reply
    case NoAnswer => 0
    case Value(_) => DeadPeers(t, self, contact.receiver, contact.receiverPing)
    case Nodes(ps) =>
      DeadPeers(t, self, contact.receiver, contact.receiverPing) +
      DeadInAll(Updated(t, self, contact.receiver, contact.receiverPing), self, Keep(self, ps), contact.pings)
  }

  /** The table after calls to several peers one after the other. */
  ghost function AfterCalls(t: Trie, self: Peer, asked: seq<Peer>, net: Net, talk: Peer -> Contact): (u: Trie)
    requires Sound(t, self)
    ensures Sound(u, self)
  {
    if asked == [] then t
    else
      var x := asked[|asked| - 1];
      AfterCall(AfterCalls(t, self, asked[..|asked| - 1], net, talk), self, x, net(x), talk(x))
  }

  lemma OneMoreCall(t: Trie, self: Peer, asked: seq<Peer>, x: Peer, net: Net, talk: Peer -> Contact)
    requires Sound(t, self)
    ensures AfterCalls(t, self, asked + [x], net, talk) ==
            AfterCall(AfterCalls(t, self, asked, net, talk), self, x, net(x), talk(x))
  {
    assert (asked + [x])[..|asked|] == asked;
  }

  lemma SoundFits(t: Trie, self: Peer)
    requires Sound(t, self)
    ensures Fits(t, 0)
  {
  }

  lemma NoCalls(t: Trie, self: Peer, net: Net, talk: Peer -> Contact)
    requires Sound(t, self)
    ensures AfterCalls(t, self, [], net, talk) == t
  {
  }

  /** The table after a `node_lookup`: the calls of the lookup, then those of the last pass. */
  ghost function AfterNodeLookup(t: Trie, self: Peer, k: Key, net: Net, again: Net,
                                 talk: Peer -> Contact, talkAgain: Peer -> Contact): (u: Trie)
    requires Sound(t, self)
    ensures Sound(u, self)
  {
    var o := Lookup(self, k, net, [], Closest(t, 0, k, KBUCKET_MAX));
    var v := AfterCalls(t, self, o.asked, net, talk);
    if o.Settled? then AfterCalls(v, self, o.list, again, talkAgain) else v
  }

  lemma NodeLookupTable(t: Trie, self: Peer, k: Key, net: Net, again: Net, talk: Peer -> Contact,
                        talkAgain: Peer -> Contact)
    requires Sound(t, self)
    ensures Fits(t, 0)
    ensures var o := Lookup(self, k, net, [], Closest(t, 0, k, KBUCKET_MAX));
      var v := AfterCalls(t, self, o.asked, net, talk);
      AfterNodeLookup(t, self, k, net, again, talk, talkAgain) ==
        if o.Settled? then AfterCalls(v, self, o.list, again, talkAgain) else v
  {
  }

  /** The table after a `store`, by how its two calls go. */
  ghost function AfterStore(t: Trie, self: Peer, peer: Peer, reply: StoreReply, force: bool,
                            contact: Contact): (u: Trie)
    requires Sound(t, self)
    ensures Sound(u, self)
  {
    match reply
    case Unreachable =>
      EvictPeerSound(t, self, peer.key);
      EvictPeer(t, self, peer.key)
    case Answered(continueStore, stored) =>
      if !continueStore && !force then t
      else
        var once := Updated(t, self, contact.receiver, contact.pings(0));
        if stored then Updated(once, self, contact.receiver, contact.pings(1)) else once
  }

  ghost function AfterStores(t: Trie, self: Peer, targets: seq<Peer>, stores: Peer -> StoreReply, force: bool,
                             talk: Peer -> Contact): (u: Trie)
    requires Sound(t, self)
    ensures Sound(u, self)
  {
    if targets == [] then t
    else
      var x := targets[|targets| - 1];
      var u := AfterStores(t, self, targets[..|targets| - 1], stores, force, talk);
      AfterStore(u, self, x, stores(x), force, talk(x))
  }

  lemma OneMoreStore(t: Trie, self: Peer, targets: seq<Peer>, x: Peer, stores: Peer -> StoreReply, force: bool,
                     talk: Peer -> Contact)
    requires Sound(t, self)
    ensures AfterStores(t, self, [], stores, force, talk) == t
    ensures AfterStores(t, self, targets + [x], stores, force, talk) ==
            AfterStore(AfterStores(t, self, targets, stores, force, talk), self, x, stores(x), force, talk(x))
  {
    assert (targets + [x])[..|targets|] == targets;
  }

  /** How the network behaves towards the publish of one key. */
  datatype Exchange = Exchange(net: Net, again: Net, talk: Peer -> Contact, talkAgain: Peer -> Contact,
                               stores: Peer -> StoreReply, talkStore: Peer -> Contact)

  /** The table after an unforced `publish` to these targets. */
  ghost function AfterPublish(t: Trie, self: Peer, k: Key, x: Exchange, targets: seq<Peer>): (u: Trie)
    requires Sound(t, self)
    ensures Sound(u, self)
  {
    AfterStores(AfterNodeLookup(t, self, k, x.net, x.again, x.talk, x.talkAgain), self, targets, x.stores, false,
                x.talkStore)
  }

  /** One publish of a pass: the key, and the peers that the chunk was sent to. */
  datatype Sent = Sent(k: Key, targets: seq<Peer>)

  /** The table after these publishes, one after the other. */
  ghost function AfterPass(t: Trie, self: Peer, log: seq<Sent>, w: Key -> Exchange): (u: Trie)
    requires Sound(t, self)
    ensures Sound(u, self)
  {
    if log == [] then t
    else
      var last := log[|log| - 1];
      AfterPublish(AfterPass(t, self, log[..|log| - 1], w), self, last.k, w(last.k), last.targets)
  }

  /** From this table the lookup of the publish returned these targets. */
  ghost predicate IsSent(t: Trie, self: Peer, s: Sent, x: Exchange)
    requires Sound(t, self)
  {
    NodeLookup(self, s.k, x.net, x.again, Closest(t, 0, s.k, KBUCKET_MAX)) == Some(s.targets)
  }

  /** Each publish is of another of these keys, and sent to what its lookup returned from the table at its turn. */
  ghost predicate IsPass(t: Trie, self: Peer, log: seq<Sent>, w: Key -> Exchange, keys: set<Key>)
    requires Sound(t, self)
  {
    && (forall i :: 0 <= i < |log| ==> log[i].k in keys)
    && (forall i, j :: 0 <= i < j < |log| ==> log[i].k != log[j].k)
    && forall i :: 0 <= i < |log| ==> IsSent(AfterPass(t, self, log[..i], w), self, log[i], w(log[i].k))
  }

  ghost predicate Logged(log: seq<Sent>, k: Key) {
    exists i :: 0 <= i < |log| && log[i].k == k
  }

  lemma OneMorePublish(t: Trie, self: Peer, log: seq<Sent>, s: Sent, w: Key -> Exchange, keys: set<Key>)
    requires Sound(t, self) && IsPass(t, self, log, w, keys) && s.k in keys && !Logged(log, s.k)
    requires IsSent(AfterPass(t, self, log, w), self, s, w(s.k))
    ensures IsPass(t, self, log + [s], w, keys)
    ensures AfterPass(t, self, log + [s], w) ==
            AfterPublish(AfterPass(t, self, log, w), self, s.k, w(s.k), s.targets)
    ensures forall k :: Logged(log + [s], k) <==> Logged(log, k) || k == s.k
  {
    hide AfterPublish, IsSent, Sound, NodeLookup, AfterPass;
    var more := log + [s];
    assert more[..|log|] == log && more[|log|] == s;
    forall i | 0 <= i < |more| ensures IsSent(AfterPass(t, self, more[..i], w), self, more[i], w(more[i].k)) {
      if i < |log| {
        assert more[..i] == log[..i];
      }
    }
    LoggedMore(log, s);
    PassStep(t, self, more, w);
  }

  lemma PassStep(t: Trie, self: Peer, log: seq<Sent>, w: Key -> Exchange)
    requires Sound(t, self) && log != []
    ensures var s := log[|log| - 1];
      AfterPass(t, self, log, w) ==
        AfterPublish(AfterPass(t, self, log[..|log| - 1], w), self, s.k, w(s.k), s.targets)
  {
    hide AfterPublish, Sound;
  }

  lemma LoggedMore(log: seq<Sent>, s: Sent)
    ensures forall k :: Logged(log + [s], k) <==> Logged(log, k) || k == s.k
  {
    var more := log + [s];
    assert more[|log|] == s;
    forall k | Logged(log, k) ensures Logged(more, k) {
      var i :| 0 <= i < |log| && log[i].k == k;
      assert more[i].k == k;
    }
  }

  lemma EmptyPass(t: Trie, self: Peer, w: Key -> Exchange, keys: set<Key>)
    requires Sound(t, self)
    ensures IsPass(t, self, [], w, keys) && AfterPass(t, self, [], w) == t
    ensures forall k :: !Logged([], k)
  {
  }

  lemma OneMoreUpdate(t: Trie, self: Peer, xs: seq<Peer>, x: Peer, answers: nat -> Option<Peer>)
    requires Sound(t, self)
    ensures UpdateAll(t, self, xs + [x], answers) == Updated(UpdateAll(t, self, xs, answers), self, x, answers(|xs|))
    ensures DeadInAll(t, self, xs + [x], answers) ==
            DeadInAll(t, self, xs, answers) + DeadPeers(UpdateAll(t, self, xs, answers), self, x, answers(|xs|))
  {
    assert (xs + [x])[..|xs|] == xs;
  }

  lemma NoUpdates(t: Trie, self: Peer, peers: seq<Peer>, answers: nat -> Option<Peer>)
    requires Sound(t, self)
    ensures UpdateAll(t, self, [], answers) == t && DeadInAll(t, self, [], answers) == 0 && Keep(self, peers[..0]) == []
  {
  }

  // ---------- What calls do to the table as a map ----------

  /** An update of another peer than self refuses it only if the least recently used peer of its bucket answers. */
  ghost predicate TurnedAway(t: Trie, self: Peer, x: Peer, answer: Option<Peer>)
    requires Sound(t, self)
  {
    var r := AttemptInsert(t, self, x);
    r.Refused? && answer.Some? && answer.value.key == r.lru.key
  }

  /** The update evicts this key: that of the least recently used peer of the full bucket, which did not answer. */
  ghost predicate Displaces(t: Trie, self: Peer, x: Peer, answer: Option<Peer>, k: Key)
    requires Sound(t, self)
  {
    var r := AttemptInsert(t, self, x);
    r.Refused? && !(answer.Some? && answer.value.key == r.lru.key) && k == r.lru.key
  }

  /** One update, on the map: who comes in, and who goes. */
  lemma UpdatedKeys(t: Trie, self: Peer, x: Peer, answer: Option<Peer>)
    requires Sound(t, self)
    ensures var m, u := AsMap(t), AsMap(Updated(t, self, x, answer));
      && (x.key != self.key && x.endpoint != self.endpoint && !TurnedAway(t, self, x, answer) ==>
            x.key in u && u[x.key] == x.endpoint)
      && (forall k :: k in m && !Displaces(t, self, x, answer, k) ==> k in u)
      && !Displaces(t, self, x, answer, x.key)
      && (forall k :: k in u && k != x.key ==> k in m && u[k] == m[k])
  {
    hide AsMap, AttemptInsert, Wf, Shallow, Elsewhere, Fits;
    UpdatePeerRefinesMap(t, self, x, answer);
    if AttemptInsert(t, self, x).Refused? {
      SecondAttemptInserts(t, self, x);
    }
  }

  /**
   The i-th of these peers is in the table at the end, unless the least recently used
   peer of its bucket answered, or a later one of them took its place.
   */
  ghost predicate Learned(t: Trie, self: Peer, xs: seq<Peer>, answers: nat -> Option<Peer>, i: nat)
    requires Sound(t, self) && i < |xs|
  {
    || xs[i].key in AsMap(UpdateAll(t, self, xs, answers))
    || TurnedAway(UpdateAll(t, self, xs[..i], answers), self, xs[i], answers(i))
    || exists j :: i < j < |xs| && Displaces(UpdateAll(t, self, xs[..j], answers), self, xs[j], answers(j), xs[i].key)
  }

  lemma {:induction false} SeenAreLearned(t: Trie, self: Peer, xs: seq<Peer>, answers: nat -> Option<Peer>, i: nat)
    requires Sound(t, self) && i < |xs| && xs[i].key != self.key && xs[i].endpoint != self.endpoint
    ensures Learned(t, self, xs, answers, i)
    decreases |xs|
  {
    hide AsMap, Sound, TurnedAway, Displaces, Updated, Learned;
    var n := |xs| - 1;
    if i < n {
      SeenAreLearned(t, self, xs[..n], answers, i);
      LearnedMore(t, self, xs, answers, i);
    } else {
      LearnedLast(t, self, xs, answers);
    }
  }

  lemma LearnedLast(t: Trie, self: Peer, xs: seq<Peer>, answers: nat -> Option<Peer>)
    requires Sound(t, self) && xs != []
    requires xs[|xs| - 1].key != self.key && xs[|xs| - 1].endpoint != self.endpoint
    ensures Learned(t, self, xs, answers, |xs| - 1)
  {
    hide AsMap, Sound, TurnedAway, Displaces, Updated;
    var n := |xs| - 1;
    UpdatedKeys(UpdateAll(t, self, xs[..n], answers), self, xs[n], answers(n));
  }

  lemma LearnedMore(t: Trie, self: Peer, xs: seq<Peer>, answers: nat -> Option<Peer>, i: nat)
    requires Sound(t, self) && i < |xs| - 1 && Learned(t, self, xs[..|xs| - 1], answers, i)
    ensures Learned(t, self, xs, answers, i)
  {
    hide AsMap, Sound, TurnedAway, Displaces, Updated, UpdateAll;
    var n := |xs| - 1;
    var front, k := xs[..n], xs[i].key;
    assert xs == front + [xs[n]];
    OneMoreUpdate(t, self, front, xs[n], answers);
    UpdatedKeys(UpdateAll(t, self, front, answers), self, xs[n], answers(n));
    assert front[..i] == xs[..i] && front[i] == xs[i];
    if k in AsMap(UpdateAll(t, self, front, answers)) {
      if Displaces(UpdateAll(t, self, xs[..n], answers), self, xs[n], answers(n), k) {
        assert i < n < |xs|;
      }
    } else if !TurnedAway(UpdateAll(t, self, xs[..i], answers), self, xs[i], answers(i)) {
      var j :| i < j < n && Displaces(UpdateAll(t, self, front[..j], answers), self, front[j], answers(j), k);
      assert front[..j] == xs[..j] && front[j] == xs[j];
    }
  }

  /** Several updates bring in nobody else. */
  lemma {:induction false} OnlySeenComeIn(t: Trie, self: Peer, xs: seq<Peer>, answers: nat -> Option<Peer>, k: Key)
    requires Sound(t, self) && k in AsMap(UpdateAll(t, self, xs, answers))
    ensures k in AsMap(t) || k in KeysOf(xs)
  {
    if xs != [] {
      hide AsMap, Sound, Updated;
      var n := |xs| - 1;
      UpdatedKeys(UpdateAll(t, self, xs[..n], answers), self, xs[n], answers(n));
      if k == xs[n].key {
        assert xs[n] in xs;
      } else {
        OnlySeenComeIn(t, self, xs[..n], answers, k);
      }
    }
  }

  /** Whom an answered call sees: the receiver, then the listed except self. */
  function Met(self: Peer, reply: Reply, contact: Contact): seq<Peer> {
    [contact.receiver] + if reply.Nodes? then Keep(self, reply.peers) else []
  }

  function PingsOf(contact: Contact): nat -> Option<Peer> {
    (i: nat) => if i == 0 then contact.receiverPing else contact.pings(i - 1)
  }

  lemma {:induction false} UpdateFirst(t: Trie, self: Peer, x: Peer, xs: seq<Peer>, answers: nat -> Option<Peer>,
                                       later: nat -> Option<Peer>)
    requires Sound(t, self) && forall i: nat :: later(i) == answers(i + 1)
    ensures UpdateAll(t, self, [x] + xs, answers) == UpdateAll(Updated(t, self, x, answers(0)), self, xs, later)
  {
    hide Updated, Sound;
    if xs == [] {
      assert [x] + xs == [x] && [x][..0] == [];
    } else {
      var n := |xs| - 1;
      assert ([x] + xs)[..n + 1] == [x] + xs[..n];
      UpdateFirst(t, self, x, xs[..n], answers, later);
    }
  }

  lemma {:induction false} DeadFirst(t: Trie, self: Peer, x: Peer, xs: seq<Peer>, answers: nat -> Option<Peer>,
                                     later: nat -> Option<Peer>)
    requires Sound(t, self) && forall i: nat :: later(i) == answers(i + 1)
    ensures DeadInAll(t, self, [x] + xs, answers) ==
      DeadPeers(t, self, x, answers(0)) + DeadInAll(Updated(t, self, x, answers(0)), self, xs, later)
  {
    hide Updated, Sound, DeadPeers;
    if xs == [] {
      assert [x] + xs == [x] && [x][..0] == [];
    } else {
      var n := |xs| - 1;
      assert ([x] + xs)[..n + 1] == [x] + xs[..n];
      DeadFirst(t, self, x, xs[..n], answers, later);
      UpdateFirst(t, self, x, xs[..n], answers, later);
    }
  }

  /** An answered call is the updates of those it sees, the receiver first, each of whom it teaches. */
  lemma AnswerTeaches(t: Trie, self: Peer, peer: Peer, reply: Reply, contact: Contact)
    requires Sound(t, self) && !reply.NoAnswer?
    ensures var met := Met(self, reply, contact);
      && AfterCall(t, self, peer, reply, contact) == UpdateAll(t, self, met, PingsOf(contact))
      && DeadInCall(t, self, reply, contact) == DeadInAll(t, self, met, PingsOf(contact))
      && forall i :: 0 <= i < |met| && met[i].key != self.key && met[i].endpoint != self.endpoint ==>
           Learned(t, self, met, PingsOf(contact), i)
  {
    hide Updated, Sound, UpdateAll, DeadInAll, DeadPeers, Keep, Learned;
    var met, listed := Met(self, reply, contact), if reply.Nodes? then Keep(self, reply.peers) else [];
    UpdateFirst(t, self, contact.receiver, listed, PingsOf(contact), contact.pings);
    DeadFirst(t, self, contact.receiver, listed, PingsOf(contact), contact.pings);
    NoUpdates(Updated(t, self, contact.receiver, contact.receiverPing), self, [], contact.pings);
    forall i: nat | i < |met| && met[i].key != self.key && met[i].endpoint != self.endpoint
      ensures Learned(t, self, met, PingsOf(contact), i)
    {
      SeenAreLearned(t, self, met, PingsOf(contact), i);
    }
  }

  /** A peer is counted dead for every update that evicts one. */
  lemma DeadAreDisplaced(t: Trie, self: Peer, x: Peer, answer: Option<Peer>)
    requires Sound(t, self)
    ensures DeadPeers(t, self, x, answer) == if exists k :: Displaces(t, self, x, answer, k) then 1 else 0
  {
    hide AttemptInsert, Wf, Shallow, Elsewhere, Fits;
    UpdatePeerRefinesMap(t, self, x, answer);
    var r := AttemptInsert(t, self, x);
    assert r.Refused? && !(answer.Some? && answer.value.key == r.lru.key) ==> Displaces(t, self, x, answer, r.lru.key);
  }

  /** The keys a call can bring into the table: the receiver's and those it lists. */
  function NamedBy(reply: Reply, contact: Contact): set<Key> {
    match reply
    case NoAnswer => {}
    case Value(_) => {contact.receiver.key}
    case Nodes(ps) => {contact.receiver.key} + KeysOf(ps)
  }

  /** A failed call removes exactly its peer; any other brings in nobody but those it names. */
  lemma CallKeys(t: Trie, self: Peer, peer: Peer, reply: Reply, contact: Contact)
    requires Sound(t, self)
    ensures var m, u := AsMap(t), AsMap(AfterCall(t, self, peer, reply, contact));
      && (reply.NoAnswer? ==> u == m - {peer.key})
      && forall k :: k in u ==> k in m || k in NamedBy(reply, contact)
  {
    hide AsMap, Sound, Updated, Wf, Shallow, Elsewhere, UpdateAll;
    match reply
    case NoAnswer => EvictPeerRefinesMap(t, self, peer.key);
    case Value(_) => UpdatedKeys(t, self, contact.receiver, contact.receiverPing);
    case Nodes(ps) =>
      UpdatedKeys(t, self, contact.receiver, contact.receiverPing);
      LookupFacts.KeepDropsSelf(self, ps);
      var once := Updated(t, self, contact.receiver, contact.receiverPing);
      forall k | k in AsMap(AfterCall(t, self, peer, reply, contact))
        ensures k in AsMap(t) || k in NamedBy(reply, contact)
      {
        OnlySeenComeIn(once, self, Keep(self, ps), contact.pings, k);
      }
  }

  /** Some call of this list, from position `i` on, names the key. */
  ghost predicate NamedFrom(asked: seq<Peer>, net: Net, talk: Peer -> Contact, i: nat, k: Key) {
    exists j :: i <= j < |asked| && k in NamedBy(net(asked[j]), talk(asked[j]))
  }

  /** A key that is not in the table and that no call names is not in it afterwards. */
  lemma {:induction false} UnnamedStayOut(t: Trie, self: Peer, asked: seq<Peer>, net: Net, talk: Peer -> Contact,
                                          k: Key)
    requires Sound(t, self) && k !in AsMap(t) && !NamedFrom(asked, net, talk, 0, k)
    ensures k !in AsMap(AfterCalls(t, self, asked, net, talk))
  {
    if asked != [] {
      hide AsMap, Sound, AfterCall, NamedBy;
      var n := |asked| - 1;
      var x := asked[n];
      UnnamedStayOut(t, self, asked[..n], net, talk, k);
      CallKeys(AfterCalls(t, self, asked[..n], net, talk), self, x, net(x), talk(x));
    }
  }

  /** A peer that failed, and that no later reply names, is not in the table. */
  lemma {:induction false} DeadAreGone(t: Trie, self: Peer, asked: seq<Peer>, net: Net, talk: Peer -> Contact, i: nat)
    requires Sound(t, self) && i < |asked| && net(asked[i]).NoAnswer?
    requires !NamedFrom(asked, net, talk, i + 1, asked[i].key)
    ensures asked[i].key !in AsMap(AfterCalls(t, self, asked, net, talk))
    decreases |asked|
  {
    hide AsMap, Sound, AfterCall, NamedBy;
    var n := |asked| - 1;
    CallKeys(AfterCalls(t, self, asked[..n], net, talk), self, asked[n], net(asked[n]), talk(asked[n]));
    if i < n {
      DeadAreGone(t, self, asked[..n], net, talk, i);
    }
  }

  /** `x` was asked, did not answer, and no later reply of this pass names it. */
  ghost predicate Dead(asked: seq<Peer>, net: Net, talk: Peer -> Contact, x: Peer) {
    net(x).NoAnswer? && exists i :: 0 <= i < |asked| && asked[i] == x && !NamedFrom(asked, net, talk, i + 1, x.key)
  }

  /** Lifted to whole lookups and to the two passes of `node_lookup`. */
  lemma LookupForgetsTheDead(t: Trie, self: Peer, k: Key, net: Net, again: Net, talk: Peer -> Contact,
                             talkAgain: Peer -> Contact, x: Peer)
    requires Sound(t, self)
    ensures Fits(t, 0)
    ensures var o := Lookup(self, k, net, [], Closest(t, 0, k, KBUCKET_MAX));
      && (Dead(o.asked, net, talk, x) ==> x.key !in AsMap(AfterCalls(t, self, o.asked, net, talk)))
      && (Dead(o.asked, net, talk, x) && !(o.Settled? && NamedFrom(o.list, again, talkAgain, 0, x.key)) ==>
            x.key !in AsMap(AfterNodeLookup(t, self, k, net, again, talk, talkAgain)))
      && (o.Settled? && Dead(o.list, again, talkAgain, x) ==>
            x.key !in AsMap(AfterNodeLookup(t, self, k, net, again, talk, talkAgain)))
  {
    SoundFits(t, self);
    hide Lookup, Closest, AsMap, AfterCalls, NamedFrom, Sound;
    var o := Lookup(self, k, net, [], Closest(t, 0, k, KBUCKET_MAX));
    var v := AfterCalls(t, self, o.asked, net, talk);
    if Dead(o.asked, net, talk, x) {
      var i :| 0 <= i < |o.asked| && o.asked[i] == x && !NamedFrom(o.asked, net, talk, i + 1, x.key);
      DeadAreGone(t, self, o.asked, net, talk, i);
      if o.Settled? && !NamedFrom(o.list, again, talkAgain, 0, x.key) {
        UnnamedStayOut(v, self, o.list, again, talkAgain, x.key);
      }
    }
    if o.Settled? && Dead(o.list, again, talkAgain, x) {
      var i :| 0 <= i < |o.list| && o.list[i] == x && !NamedFrom(o.list, again, talkAgain, i + 1, x.key);
      DeadAreGone(v, self, o.list, again, talkAgain, i);
    }
  }

  /** A `store` that goes on is one or two updates of its receiver; a peer that fails the first call goes. */
  lemma StoreKeys(t: Trie, self: Peer, peer: Peer, reply: StoreReply, force: bool, contact: Contact)
    requires Sound(t, self)
    ensures var u, x := AfterStore(t, self, peer, reply, force, contact), contact.receiver;
      && (reply.Unreachable? ==> AsMap(u) == AsMap(t) - {peer.key})
      && (reply.Answered? ==>
            u == UpdateAll(t, self, if !reply.continueStore && !force then [] else if reply.stored then [x, x] else [x],
                           contact.pings))
  {
    hide AsMap, Sound, Updated, EvictPeer;
    match reply
    case Unreachable => EvictPeerRefinesMap(t, self, peer.key);
    case Answered(continueStore, stored) =>
      var x := contact.receiver;
      assert [x] + [x] == [x, x];
      OneUpdate(t, self, x, contact.pings);
      OneMoreUpdate(t, self, [x], x, contact.pings);
  }

  lemma OneUpdate(t: Trie, self: Peer, x: Peer, answers: nat -> Option<Peer>)
    requires Sound(t, self)
    ensures UpdateAll(t, self, [x], answers) == Updated(t, self, x, answers(0))
  {
    hide Updated, Sound;
    assert [x][..0] == [];
  }

  /** A store brings in nobody but its receiver. */
  lemma StoreNames(t: Trie, self: Peer, peer: Peer, reply: StoreReply, force: bool, contact: Contact, k: Key)
    requires Sound(t, self) && k in AsMap(AfterStore(t, self, peer, reply, force, contact))
    ensures k in AsMap(t) || k == contact.receiver.key
    ensures reply.Unreachable? ==> k != peer.key
  {
    hide AsMap, Sound, AfterStore, UpdateAll;
    StoreKeys(t, self, peer, reply, force, contact);
    if reply.Answered? {
      var x := contact.receiver;
      var xs := if !reply.continueStore && !force then [] else if reply.stored then [x, x] else [x];
      OnlySeenComeIn(t, self, xs, contact.pings, k);
    }
  }

  /** A target that could not be reached, and that no later target answers for, is not in the table. */
  lemma {:induction false} StoresForgetTheDead(t: Trie, self: Peer, targets: seq<Peer>, stores: Peer -> StoreReply,
                                               force: bool, talk: Peer -> Contact, i: nat)
    requires Sound(t, self) && i < |targets| && stores(targets[i]).Unreachable?
    requires forall j :: i < j < |targets| ==> talk(targets[j]).receiver.key != targets[i].key
    ensures targets[i].key !in AsMap(AfterStores(t, self, targets, stores, force, talk))
    decreases |targets|
  {
    hide AsMap, Sound, AfterStore;
    var n := |targets| - 1;
    var u, x := AfterStores(t, self, targets[..n], stores, force, talk), targets[n];
    if i < n {
      StoresForgetTheDead(t, self, targets[..n], stores, force, talk, i);
    }
    if targets[i].key in AsMap(AfterStores(t, self, targets, stores, force, talk)) {
      StoreNames(u, self, x, stores(x), force, talk(x), targets[i].key);
    }
  }
}
