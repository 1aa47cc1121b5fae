/**
 Replicas get made (src/dht/session.cpp:103-127; src/dht/rpc.cpp:206-251, 351-403): what
 a publish of the interleaved protocol leaves at its targets when its calls go through,
 and that the publishes of `Retrieval`, which are one step, are runs of that protocol.
 */
module Replicas {
  import opened Keys
  import opened Tries
  import opened Protocol
  import Retrieval

  /** One call of the i-th publish: sent, answered, delivered; a call to a node that is gone is lost. */
  function Send(s: State, i: nat, dst: Key): seq<Action> {
    var f := |s.flights|;
    [SendInit(i, dst), AnswerInit(f), Deliver(f), Lose(f)]
  }

  lemma {:induction false} RunConcat(s: State, a: seq<Action>, b: seq<Action>)
    ensures Run(s, a + b) == Run(Run(s, a), b)
  {
    if b == [] {
      assert a + b == a;
    } else {
      assert (a + b)[..|a + b| - 1] == a + b[..|b| - 1];
      RunConcat(s, a, b[..|b| - 1]);
    }
  }

  lemma RunOne(s: State, a: Action)
    ensures Run(s, [a]) == Apply(s, a)
  {
    hide Apply;
    assert [a][..0] == [];
    assert Run(s, []) == s;
  }

  lemma RunFourFrom(s: State, a: Action, b: Action, c: Action, d: Action)
    ensures Run(s, [a, b, c, d]) == Apply(Apply(Apply(Apply(s, a), b), c), d)
  {
    hide Apply, Run;
    assert [a, b, c, d] == [a] + [b] + [c] + [d];
    RunConcat(s, [a] + [b] + [c], [d]);
    RunConcat(s, [a] + [b], [c]);
    RunConcat(s, [a], [b]);
    RunOne(s, a);
    RunOne(Apply(s, a), b);
    RunOne(Apply(Apply(s, a), b), c);
    RunOne(Apply(Apply(Apply(s, a), b), c), d);
  }

  /**
   A call that goes through, forced or not: a live target that lacks the key ends with
   the data; one that has it keeps its copy, or by force gets the new one; nothing else
   changes anywhere.
   */
  lemma ReplicaArrives(s: State, i: nat, dst: Key)
    requires i < |s.hands| && s.hands[i].src in s.held
    ensures var h := s.hands[i];
      Run(s, Send(s, i, dst)) ==
        if dst in s.held && (h.entry.k !in s.held[dst] || h.force)
        then s.(held := Write(s.held, dst, h.entry))
        else s
  {
    hide Run, Apply, Write, Without;
    var h, f := s.hands[i], |s.flights|;
    RunFourFrom(s, SendInit(i, dst), AnswerInit(f), Deliver(f), Lose(f));
    SendGoes(s, i, dst);
    LastAnswered(s, dst, h.entry, h.force);
    LastDelivered(s, dst, h.entry, h.force);
    LastLost(s, Flight(dst, h.entry, h.force, Asking));
  }

  function WithFlight(s: State, g: Flight): State {
    s.(flights := s.flights + [g])
  }

  lemma LastAnswered(s: State, dst: Key, e: Entry, force: bool)
    ensures Apply(WithFlight(s, Flight(dst, e, force, Asking)), AnswerInit(|s.flights|)) ==
      if dst !in s.held then WithFlight(s, Flight(dst, e, force, Asking))
      else if e.k !in s.held[dst] || force then WithFlight(s, Flight(dst, e, force, Granted))
      else s
  {
    var g := Flight(dst, e, force, Asking);
    Dropped(s.flights, g);
    assert (s.flights + [g])[|s.flights| := g.(phase := Granted)] == s.flights + [g.(phase := Granted)];
  }

  lemma LastDelivered(s: State, dst: Key, e: Entry, force: bool)
    ensures Apply(WithFlight(s, Flight(dst, e, force, Asking)), Deliver(|s.flights|)) ==
            WithFlight(s, Flight(dst, e, force, Asking))
    ensures dst in s.held ==>
      Apply(WithFlight(s, Flight(dst, e, force, Granted)), Deliver(|s.flights|)) == s.(held := Write(s.held, dst, e))
    ensures Apply(s, Deliver(|s.flights|)) == s
  {
    Dropped(s.flights, Flight(dst, e, force, Granted));
  }

  lemma LastLost(s: State, g: Flight)
    ensures Apply(WithFlight(s, g), Lose(|s.flights|)) == s
    ensures forall t: State :: |t.flights| == |s.flights| ==> Apply(t, Lose(|s.flights|)) == t
  {
    Dropped(s.flights, g);
  }

  lemma SendGoes(s: State, i: nat, dst: Key)
    requires i < |s.hands| && s.hands[i].src in s.held
    ensures Apply(s, SendInit(i, dst)) == WithFlight(s, Flight(dst, s.hands[i].entry, s.hands[i].force, Asking))
  {
  }

  lemma Dropped(flights: seq<Flight>, g: Flight)
    ensures Without(flights + [g], |flights|) == flights
  {
  }

  /** The same for the three steps of a call that goes through, in terms of what the target then holds. */
  lemma ReplicaIsThere(s: State, i: nat, dst: Key)
    requires i < |s.hands| && s.hands[i].src in s.held && dst in s.held
    ensures var h := s.hands[i];
      var t := Run(s, [SendInit(i, dst), AnswerInit(|s.flights|), Deliver(|s.flights|)]);
      && dst in t.held && h.entry.k in t.held[dst]
      && t.held[dst][h.entry.k] ==
           if h.entry.k in s.held[dst] && !h.force then s.held[dst][h.entry.k] else h.entry.data
  {
    var h, f := s.hands[i], |s.flights|;
    var a, b, c := SendInit(i, dst), AnswerInit(f), Deliver(f);
    assert [a, b, c] == [a] + [b] + [c];
    hide Run;
    RunConcat(s, [a] + [b], [c]);
    RunConcat(s, [a], [b]);
    RunOne(s, a);
    RunOne(Apply(s, a), b);
    RunOne(Apply(Apply(s, a), b), c);
  }

  /** A call that is turned down is over: the target has the key, and the publish is not forced. */
  lemma RefusedCallEnds(s: State, i: nat, dst: Key)
    requires i < |s.hands| && s.hands[i].src in s.held && dst in s.held
    requires s.hands[i].entry.k in s.held[dst] && !s.hands[i].force
    ensures Run(s, [SendInit(i, dst)] + [AnswerInit(|s.flights|)]) == s
  {
    hide Run;
    RunConcat(s, [SendInit(i, dst)], [AnswerInit(|s.flights|)]);
    RunOne(s, SendInit(i, dst));
    SendGoes(s, i, dst);
    RunOne(Apply(s, SendInit(i, dst)), AnswerInit(|s.flights|));
    Dropped(s.flights, Flight(dst, s.hands[i].entry, s.hands[i].force, Asking));
  }

  /** A call that is lost leaves no replica. */
  lemma LostCallLeavesNothing(s: State, i: nat, dst: Key)
    requires i < |s.hands| && s.hands[i].src in s.held
    ensures Run(s, [SendInit(i, dst)] + [Lose(|s.flights|)]) == s
  {
    hide Run;
    RunConcat(s, [SendInit(i, dst)], [Lose(|s.flights|)]);
    RunOne(s, SendInit(i, dst));
    SendGoes(s, i, dst);
    RunOne(Apply(s, SendInit(i, dst)), Lose(|s.flights|));
    Dropped(s.flights, Flight(dst, s.hands[i].entry, s.hands[i].force, Asking));
  }

  // ---------- What a step leaves alone ----------

  /** The node whose chunks a step can change. */
  function Place(s: State, a: Action): Option<Key> {
    match a
    case Join(n) => Some(n)
    case Depart(n) => Some(n)
    case Republish(n, _) => Some(n)
    case Expire(n, _) => Some(n)
    case Deliver(i) => if i < |s.flights| then Some(s.flights[i].dst) else None
    case KeepLocal(i) => if i < |s.hands| then Some(s.hands[i].src) else None
    case _ => None
  }

  /** The call a step concerns, and the publish. */
  ghost predicate ConcernsCall(a: Action, i: nat) {
    (a.AnswerInit? || a.Deliver? || a.Lose?) && a.flight == i
  }

  ghost predicate ConcernsPublish(a: Action, i: nat) {
    (a.KeepLocal? || a.Throw?) && a.hand == i
  }

  /** Every other node, call and publish is left as it is; and a node that is gone starts nothing. */
  lemma StepsStayInPlace(s: State, a: Action)
    ensures var t := Apply(s, a);
      && (forall n :: Place(s, a) != Some(n) ==>
            (n in t.held <==> n in s.held) && (n in s.held ==> t.held[n] == s.held[n]))
      && (forall i :: 0 <= i < |s.flights| && !ConcernsCall(a, i) ==> s.flights[i] in t.flights)
      && (forall i :: 0 <= i < |s.hands| && !ConcernsPublish(a, i) ==> s.hands[i] in t.hands)
      && (!a.SendInit? ==> |t.flights| <= |s.flights|)
      && (!(a.Set? || a.Republish?) ==> |t.hands| <= |s.hands|)
      && ((a.Set? || a.Republish?) && a.node !in s.held ==> t == s)
      && (a.SendInit? && a.hand < |s.hands| && s.hands[a.hand].src !in s.held ==> t == s)
  {
    var t := Apply(s, a);
    forall i | 0 <= i < |s.flights| && !ConcernsCall(a, i) ensures s.flights[i] in t.flights {
      if (a.AnswerInit? || a.Deliver? || a.Lose?) && a.flight < |s.flights| {
        WithoutAt(s.flights, a.flight, i);
        assert s.flights[i] in Without(s.flights, a.flight);
        assert t.flights == s.flights || t.flights == Without(s.flights, a.flight) || t.flights[i] == s.flights[i];
      } else {
        assert s.flights <= t.flights;
      }
    }
    forall i | 0 <= i < |s.hands| && !ConcernsPublish(a, i) ensures s.hands[i] in t.hands {
      if (a.KeepLocal? || a.Throw?) && a.hand < |s.hands| {
        WithoutAt(s.hands, a.hand, i);
        assert s.hands[i] in Without(s.hands, a.hand);
      } else {
        assert s.hands <= t.hands;
      }
    }
  }

  // ---------- Whole publishes ----------

  /** The calls of a publish to these targets, in turn. */
  function Sends(s: State, i: nat, targets: seq<Peer>): seq<Action> {
    if targets == [] then []
    else Sends(s, i, targets[..|targets| - 1]) + Send(s, i, targets[|targets| - 1].key)
  }

  /** The calls leave the copies of `Retrieval.StoreAll`, and nothing under way. */
  lemma {:induction false} SendsStoreAll(s: State, i: nat, targets: seq<Peer>)
    requires i < |s.hands| && s.hands[i].src in s.held
    ensures var h := s.hands[i];
      Run(s, Sends(s, i, targets)) ==
        s.(held := Retrieval.StoreAll(s.held, targets, h.entry.k, h.entry.data, h.force))
  {
    if targets != [] {
      hide Run, Send, Apply;
      var n := |targets| - 1;
      var h, dst := s.hands[i], targets[n].key;
      SendsStoreAll(s, i, targets[..n]);
      var t := Run(s, Sends(s, i, targets[..n]));
      RunConcat(s, Sends(s, i, targets[..n]), Send(s, i, dst));
      StillThere(s.held, targets[..n], h);
      SameSend(s, t, i, dst);
      ReplicaArrives(t, i, dst);
    } else {
      NothingRuns(s);
    }
  }

  lemma NothingRuns(s: State)
    ensures Run(s, []) == s
  {
  }

  lemma SameSend(s: State, t: State, i: nat, dst: Key)
    requires |s.flights| == |t.flights|
    ensures Send(s, i, dst) == Send(t, i, dst)
  {
  }

  lemma {:induction false} StillThere(held: Retrieval.Chunks, targets: seq<Peer>, h: Hand)
    ensures Retrieval.StoreAll(held, targets, h.entry.k, h.entry.data, h.force).Keys == held.Keys
  {
    if targets != [] {
      StillThere(held, targets[..|targets| - 1], h);
    }
  }

  /** A publish in which every call goes through, from the moment the lookup has returned its targets. */
  function PublishRun(s: State, i: nat, targets: seq<Peer>): seq<Action> {
    Sends(s, i, targets) + [KeepLocal(i)]
  }

  /**
   The publish of `Retrieval`, which is one step, is a run of the protocol: it ends with
   exactly those copies, the publish over and no call under way that was not before.
   */
  lemma PublishIsARun(s: State, i: nat, self: Peer, targets: seq<Peer>)
    requires i < |s.hands| && s.hands[i].src == self.key && self.key in s.held && |targets| <= KBUCKET_MAX
    ensures var h := s.hands[i];
      Run(s, PublishRun(s, i, targets)) ==
        s.(held := Retrieval.Publish(s.held, self, targets, h.entry.k, h.entry.data, h.force),
           hands := Without(s.hands, i))
  {
    hide Run, Sends;
    var h := s.hands[i];
    SendsStoreAll(s, i, targets);
    StillThere(s.held, targets, h);
    RunConcat(s, Sends(s, i, targets), [KeepLocal(i)]);
    var t := Run(s, Sends(s, i, targets));
    RunOne(t, KeepLocal(i));
    assert targets[..|targets|] == targets;
  }

  /** A set that goes through: the publish begins, and ends with those copies and nothing under way. */
  lemma SetIsARun(s: State, self: Peer, e: Entry, force: bool, targets: seq<Peer>)
    requires self.key in s.held && |targets| <= KBUCKET_MAX
    ensures var begun := Apply(s, Set(self.key, e, force));
      Run(s, [Set(self.key, e, force)] + PublishRun(begun, |s.hands|, targets)) ==
        s.(held := Retrieval.Publish(s.held, self, targets, e.k, e.data, force), published := s.published + {e})
  {
    hide Run, PublishRun, Retrieval.Publish;
    var a := Set(self.key, e, force);
    var begun := Apply(s, a);
    RunConcat(s, [a], PublishRun(begun, |s.hands|, targets));
    RunOne(s, a);
    PublishIsARun(begun, |s.hands|, self, targets);
    assert Without(s.hands + [Hand(self.key, e, force)], |s.hands|) == s.hands;
  }

  // ---------- Republishing ----------

  /**
   A republish that goes through is an unforced publish of what the node had; until it
   ends the key is not in the node's map, and if its lookup throws it is gone there.
   */
  lemma RepublishIsARun(s: State, self: Peer, k: Key, targets: seq<Peer>)
    requires self.key in s.held && k in s.held[self.key] && |targets| <= KBUCKET_MAX
    ensures var data, begun := s.held[self.key][k], Apply(s, Republish(self.key, k));
      && begun.held == s.held[self.key := s.held[self.key] - {k}]
      && Run(begun, PublishRun(begun, |s.hands|, targets)) ==
           s.(held := Retrieval.Publish(begun.held, self, targets, k, data, false))
      && Apply(begun, Throw(|s.hands|)) == s.(held := begun.held)
  {
    hide Run, PublishRun, Retrieval.Publish;
    var data, begun := s.held[self.key][k], Apply(s, Republish(self.key, k));
    PublishIsARun(begun, |s.hands|, self, targets);
    assert Without(s.hands + [Hand(self.key, Entry(k, data), false)], |s.hands|) == s.hands;
  }
}
