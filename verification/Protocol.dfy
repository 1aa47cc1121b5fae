/**
 Chunk storage between nodes that act concurrently (src/dht/rpc.cpp:206-251,
 351-403; src/dht/session.cpp:95-127; the republish pass, src/dht/rpc.cpp:66-72).

 Each action is one atomic step between two lock boundaries.  In particular
 `StoreInit` and `Store` of one call are separate actions, and any other action
 can come between them.
 */
module Protocol {
  import opened Keys

  datatype Entry = Entry(k: Key, data: Bytes)

  datatype Phase = Asking | Granted

  /** A `store` call on its way to `dst`. */
  datatype Flight = Flight(dst: Key, entry: Entry, force: bool, phase: Phase)

  /**
   A chunk inside `publish` at node `src`: it may be in no map for a while.  The
   publish ends with the local copy (`KeepLocal`) or with the exception of its
   lookup (`Throw`), and then the chunk is dropped; no code catches the exception, so
   in a deployment the node's departure (`Depart`) follows.
   */
  datatype Hand = Hand(src: Key, entry: Entry, force: bool)

  /** Per live node the chunks it holds; the calls and publishes under way; and, as history, all that was ever set. */
  datatype State = State(held: map<Key, map<Key, Bytes>>, flights: seq<Flight>, hands: seq<Hand>, published: set<Entry>)

  datatype Action =
    | Join(node: Key)
    | Depart(node: Key)
    | Set(node: Key, entry: Entry, force: bool)
    | Republish(node: Key, k: Key)
    | SendInit(hand: nat, dst: Key)
    | AnswerInit(flight: nat)
    | Deliver(flight: nat)
    | Lose(flight: nat)
    | KeepLocal(hand: nat)
    | Throw(hand: nat)
    | Expire(node: Key, k: Key)

  function Without<T>(s: seq<T>, i: nat): seq<T>
    requires i < |s|
  {
    s[..i] + s[i + 1..]
  }

  function Write(h: map<Key, map<Key, Bytes>>, node: Key, e: Entry): map<Key, map<Key, Bytes>>
    requires node in h
  {
    var m: map<Key, Bytes> := h[node][e.k := e.data];
    h[node := m]
  }

  function Erase(h: map<Key, map<Key, Bytes>>, node: Key, k: Key): map<Key, map<Key, Bytes>>
    requires node in h
  {
    h[node := h[node] - {k}]
  }

  /** One step; an action that is not enabled changes nothing. */
  function Apply(s: State, a: Action): State {
    match a
    case Join(n) => if n in s.held then s else s.(held := s.held[n := map[]])
    case Depart(n) => s.(held := s.held - {n})
    case Set(n, e, force) =>
      if n !in s.held then s
      else s.(hands := s.hands + [Hand(n, e, force)], published := s.published + {e})
    case Republish(n, k) =>
      if n !in s.held || k !in s.held[n] then s
      else s.(held := Erase(s.held, n, k), hands := s.hands + [Hand(n, Entry(k, s.held[n][k]), false)])
    case SendInit(i, dst) =>
      if i >= |s.hands| || s.hands[i].src !in s.held then s
      else s.(flights := s.flights + [Flight(dst, s.hands[i].entry, s.hands[i].force, Asking)])
    case AnswerInit(i) =>
      if i >= |s.flights| || s.flights[i].phase.Granted? || s.flights[i].dst !in s.held then s
      else
        var f := s.flights[i];
        if f.entry.k !in s.held[f.dst] || f.force then s.(flights := s.flights[i := f.(phase := Granted)])
        else s.(flights := Without(s.flights, i))
    case Deliver(i) =>
      if i >= |s.flights| || s.flights[i].phase.Asking? || s.flights[i].dst !in s.held then s
      else
        var f := s.flights[i];
        s.(held := Write(s.held, f.dst, f.entry), flights := Without(s.flights, i))
    case Lose(i) => if i >= |s.flights| then s else s.(flights := Without(s.flights, i))
    case KeepLocal(i) =>
      if i >= |s.hands| then s
      else
        var h := s.hands[i];
        if h.src !in s.held then s.(hands := Without(s.hands, i))
        else s.(held := Write(s.held, h.src, h.entry), hands := Without(s.hands, i))
    case Throw(i) => if i >= |s.hands| then s else s.(hands := Without(s.hands, i))
    case Expire(n, k) => if n !in s.held then s else s.(held := Erase(s.held, n, k))
  }

  function Run(s: State, run: seq<Action>): State {
    if run == [] then s else Apply(Run(s, run[..|run| - 1]), run[|run| - 1])
  }

  const Nothing := State(map[], [], [], {})

  // ---------- Nothing is invented ----------

  /** Every chunk held, in hand or in flight was set by somebody. */
  ghost predicate Authentic(s: State) {
    && (forall n, k :: n in s.held && k in s.held[n] ==> Entry(k, s.held[n][k]) in s.published)
    && (forall i :: 0 <= i < |s.flights| ==> s.flights[i].entry in s.published)
    && (forall i :: 0 <= i < |s.hands| ==> s.hands[i].entry in s.published)
  }

  lemma ApplyKeepsAuthentic(s: State, a: Action)
    requires Authentic(s)
    ensures Authentic(Apply(s, a))
  {
    match a
    case Depart(n) => assert forall m :: m in Apply(s, a).held ==> m in s.held && Apply(s, a).held[m] == s.held[m];
    case _ =>
  }

  lemma {:induction false} RunKeepsAuthentic(s: State, run: seq<Action>)
    requires Authentic(s)
    ensures Authentic(Run(s, run))
  {
    if run != [] {
      hide Authentic, Apply;
      RunKeepsAuthentic(s, run[..|run| - 1]);
      ApplyKeepsAuthentic(Run(s, run[..|run| - 1]), run[|run| - 1]);
    }
  }

  lemma RunIsAuthentic(run: seq<Action>)
    ensures Authentic(Run(Nothing, run))
  {
    RunKeepsAuthentic(Nothing, run);
  }

  /** All sets of `k` in the run used the same data. */
  ghost predicate OneValue(run: seq<Action>, k: Key) {
    forall i, j ::
      0 <= i < |run| && 0 <= j < |run| &&
      run[i].Set? && run[j].Set? && run[i].entry.k == k && run[j].entry.k == k ==>
      run[i].entry == run[j].entry
  }

  lemma {:induction false} PublishedBySet(run: seq<Action>, e: Entry)
    requires e in Run(Nothing, run).published
    ensures exists i :: 0 <= i < |run| && run[i].Set? && run[i].entry == e
  {
    var n := |run| - 1;
    if run == [] {
    } else if e in Run(Nothing, run[..n]).published {
      PublishedBySet(run[..n], e);
      var i :| 0 <= i < |run[..n]| && run[..n][i].Set? && run[..n][i].entry == e;
      assert run[i] == run[..n][i];
    } else {
      assert run[n].Set? && run[n].entry == e;
    }
  }

  /**
   Whatever the interleaving, departures and losses, and even if two publishers
   are both told to continue: if a key is only ever set to one value, all copies
   of it agree.
   */
  lemma CopiesAgree(run: seq<Action>, k: Key, m: Key, n: Key)
    requires OneValue(run, k)
    ensures var h := Run(Nothing, run).held;
      m in h && n in h && k in h[m] && k in h[n] ==> h[m][k] == h[n][k]
  {
    var s := Run(Nothing, run);
    RunIsAuthentic(run);
    if m in s.held && n in s.held && k in s.held[m] && k in s.held[n] {
      PublishedBySet(run, Entry(k, s.held[m][k]));
      PublishedBySet(run, Entry(k, s.held[n][k]));
    }
  }

  lemma RunFour(run: seq<Action>)
    requires |run| == 4
    ensures Run(Nothing, run) == Apply(Apply(Apply(Apply(Nothing, run[0]), run[1]), run[2]), run[3])
  {
    hide Apply;
    assert run[..3][..2] == run[..2] && run[..2][..1] == run[..1] && run[..1][..0] == [];
    assert Run(Nothing, run[..1]) == Apply(Nothing, run[0]);
    assert Run(Nothing, run[..2]) == Apply(Run(Nothing, run[..1]), run[1]);
    assert Run(Nothing, run[..3]) == Apply(Run(Nothing, run[..2]), run[2]);
  }

  /** Two values for one key can leave two nodes with different copies, even if no set is forced. */
  lemma TwoValuesDisagree(m: Key, n: Key, k: Key, a: Bytes, b: Bytes)
    requires m != n && a != b
    ensures
      var run := [Join(m), Join(n), Set(m, Entry(k, a), false), Set(n, Entry(k, b), false), KeepLocal(0), KeepLocal(0)];
      var h := Run(Nothing, run).held;
      m in h && n in h && k in h[m] && k in h[n] && h[m][k] != h[n][k]
  {
    var run := [Join(m), Join(n), Set(m, Entry(k, a), false), Set(n, Entry(k, b), false), KeepLocal(0), KeepLocal(0)];
    var sets := [Join(m), Join(n), Set(m, Entry(k, a), false), Set(n, Entry(k, b), false)];
    RunFour(sets);
    assert run[..5] == sets + [KeepLocal(0)] && run[..5][..4] == sets;
    var four := Run(Nothing, sets);
    assert four.held == map[m := map[], n := map[]];
    assert four.hands == [Hand(m, Entry(k, a), false), Hand(n, Entry(k, b), false)];
    var five := Run(Nothing, run[..5]);
    assert five == Apply(four, KeepLocal(0));
    assert five.hands == [Hand(n, Entry(k, b), false)];
  }

  /** Content addressing: every set of a content key uses data that hashes to it. */
  ghost predicate ContentAddressed(run: seq<Action>, hash: Bytes -> Key, mutable: set<Key>) {
    forall i :: 0 <= i < |run| && run[i].Set? && run[i].entry.k !in mutable ==>
      hash(run[i].entry.data) == run[i].entry.k
  }

  /** Every copy under a content key hashes to that key, at every node and in every reachable state. */
  lemma CopiesHashToTheirKey(run: seq<Action>, hash: Bytes -> Key, mutable: set<Key>, k: Key, n: Key)
    requires ContentAddressed(run, hash, mutable) && k !in mutable
    ensures var h := Run(Nothing, run).held; n in h && k in h[n] ==> hash(h[n][k]) == k
  {
    var s := Run(Nothing, run);
    RunIsAuthentic(run);
    if n in s.held && k in s.held[n] {
      PublishedBySet(run, Entry(k, s.held[n][k]));
    }
  }

  // ---------- Nothing is lost ----------

  /** This node has the key in a publish of its own. */
  ghost predicate InHand(s: State, n: Key, k: Key) {
    exists i :: 0 <= i < |s.hands| && s.hands[i].src == n && s.hands[i].entry.k == k
  }

  /** This node has the key in its map or in a publish of its own. */
  ghost predicate Keeps(s: State, n: Key, k: Key) {
    (n in s.held && k in s.held[n]) || InHand(s, n, k)
  }

  /** The other publishes of this node under way have the key. */
  ghost predicate InOtherHand(s: State, n: Key, k: Key, but: nat) {
    exists i :: 0 <= i < |s.hands| && i != but && s.hands[i].src == n && s.hands[i].entry.k == k
  }

  /**
   The steps by which a node that has the key gives it up: it leaves; the key
   expires there while no publish of the node has it; or the only publish that has
   it throws while the map lacks it, as on a republish pass without peers.
   */
  ghost predicate GivesUp(s: State, a: Action, n: Key, k: Key) {
    match a
    case Depart(m) => m == n
    case Expire(m, x) => m == n && x == k && !InHand(s, n, k)
    case Throw(i) =>
      && i < |s.hands| && s.hands[i].src == n && s.hands[i].entry.k == k
      && !(n in s.held && k in s.held[n]) && !InOtherHand(s, n, k, i)
    case _ => false
  }

  lemma WithoutAt<T>(s: seq<T>, i: nat, j: nat)
    requires i < |s| && j < |s| && j != i
    ensures var l := if j < i then j else j - 1; 0 <= l < |Without(s, i)| && Without(s, i)[l] == s[j]
  {
  }

  /** A publish under way is in the same list after the step, or ends with it. */
  lemma HandAfter(s: State, a: Action, n: Key, k: Key, i: nat)
    requires i < |s.hands| && s.hands[i].src == n && s.hands[i].entry.k == k
    requires !(a.KeepLocal? && a.hand == i) && !(a.Throw? && a.hand == i)
    ensures InHand(Apply(s, a), n, k)
  {
    var t := Apply(s, a);
    if (a.KeepLocal? || a.Throw?) && a.hand < |s.hands| {
      WithoutAt(s.hands, a.hand, i);
      assert t.hands[if i < a.hand then i else i - 1] == s.hands[i];
    } else {
      assert t.hands[i] == s.hands[i];
    }
  }

  /** A publish under way after a throw was under way before it. */
  lemma HandBefore(s: State, i: nat, n: Key, k: Key)
    requires i < |s.hands| && InHand(Apply(s, Throw(i)), n, k)
    ensures InOtherHand(s, n, k, i)
  {
    var t := Apply(s, Throw(i));
    var l :| 0 <= l < |t.hands| && t.hands[l].src == n && t.hands[l].entry.k == k;
    assert t.hands[l] == s.hands[if l < i then l else l + 1];
  }

  lemma ThrowGivesUp(s: State, i: nat, n: Key, k: Key)
    requires n in s.held && Keeps(s, n, k)
    ensures n in Apply(s, Throw(i)).held
    ensures Keeps(Apply(s, Throw(i)), n, k) <==> !GivesUp(s, Throw(i), n, k)
  {
    if GivesUp(s, Throw(i), n, k) {
      if InHand(Apply(s, Throw(i)), n, k) {
        HandBefore(s, i, n, k);
      }
    } else if k !in s.held[n] {
      var j :| 0 <= j < |s.hands| && s.hands[j].src == n && s.hands[j].entry.k == k &&
        (j != i || !InOtherHand(s, n, k, i));
      if j == i {
        assert false;
      }
      HandAfter(s, Throw(i), n, k, j);
    }
  }

  /** One step: a live node has lost the key if and only if the step is one of those. */
  lemma GivesUpExactly(s: State, a: Action, n: Key, k: Key)
    requires n in s.held && Keeps(s, n, k)
    ensures n in Apply(s, a).held && Keeps(Apply(s, a), n, k) <==> !GivesUp(s, a, n, k)
  {
    var t := Apply(s, a);
    if a.Throw? {
      ThrowGivesUp(s, a.hand, n, k);
    } else if InHand(s, n, k) {
      var i :| 0 <= i < |s.hands| && s.hands[i].src == n && s.hands[i].entry.k == k;
      if a.KeepLocal? && a.hand == i {
        assert k in t.held[n];
      } else {
        HandAfter(s, a, n, k, i);
      }
    } else if a.Republish? && a.node == n && a.k == k {
      assert t.hands[|s.hands|] == Hand(n, Entry(k, s.held[n][k]), false);
    } else if a.Expire? && a.node == n && a.k == k {
      assert t.hands == s.hands;
    }
  }

  /**
   Conservation, exactly: over any run, a node has the key all along, in its map or
   in a publish of its own, if and only if no step of the run gives it up.
   */
  lemma {:induction false} RunKeepsExactly(s: State, run: seq<Action>, n: Key, k: Key)
    requires n in s.held && Keeps(s, n, k)
    ensures
      (forall j :: 0 <= j <= |run| ==> n in Run(s, run[..j]).held && Keeps(Run(s, run[..j]), n, k)) <==>
      (forall j :: 0 <= j < |run| ==> !GivesUp(Run(s, run[..j]), run[j], n, k))
  {
    hide Keeps, GivesUp, Apply;
    assert run[..|run|] == run;
    if run != [] {
      var m := |run| - 1;
      var front := run[..m];
      assert forall j :: 0 <= j <= m ==> front[..j] == run[..j];
      assert forall j :: 0 <= j < m ==> front[j] == run[j];
      RunKeepsExactly(s, front, n, k);
      assert front[..m] == front;
      if n in Run(s, front).held && Keeps(Run(s, front), n, k) {
        GivesUpExactly(Run(s, front), run[m], n, k);
      }
    }
  }

  /**
   A publish of a node that stays and does not throw: once no publish of the key is
   under way there any more, the node's map has the key, with data somebody set.
   */
  lemma FinishedPublishIsInTheMap(before: seq<Action>, run: seq<Action>, n: Key, k: Key)
    requires var s := Run(Nothing, before);
      && n in s.held && InHand(s, n, k)
      && (forall j :: 0 <= j < |run| ==> !GivesUp(Run(s, run[..j]), run[j], n, k))
      && !InHand(Run(s, run), n, k)
    ensures var t := Run(Run(Nothing, before), run);
      n in t.held && k in t.held[n] && Entry(k, t.held[n][k]) in t.published
  {
    var s := Run(Nothing, before);
    hide GivesUp, Apply, Run;
    RunIsAuthentic(before);
    RunKeepsAuthentic(s, run);
    RunKeepsExactly(s, run, n, k);
    assert run[..|run|] == run;
  }

  // ---------- The gap between the two calls ----------

  /**
   Two unforced stores of a key that node `c` lacks, both told to continue before
   either delivers: the second delivery overwrites the first, forced or not.
   `StoreInit` therefore protects a chunk only against calls that start after it
   is there (see `HeldChunkIsProtected`).
   */
  lemma UnforcedStoreCanOverwrite(s: State, i: nat, j: nat)
    requires i < j < |s.flights|
    requires var f, g := s.flights[i], s.flights[j];
      && f.phase.Asking? && g.phase.Asking? && !f.force && !g.force
      && f.dst == g.dst && f.dst in s.held
      && f.entry.k == g.entry.k && f.entry.k !in s.held[f.dst]
    ensures var f, g := s.flights[i], s.flights[j];
      var both := Apply(Apply(s, AnswerInit(i)), AnswerInit(j));
      var one := Apply(both, Deliver(j));
      var two := Apply(one, Deliver(i));
      && f.dst in one.held && g.entry.k in one.held[f.dst] && one.held[f.dst][g.entry.k] == g.entry.data
      && f.dst in two.held && f.entry.k in two.held[f.dst] && two.held[f.dst][f.entry.k] == f.entry.data
  {
    var f, g := s.flights[i], s.flights[j];
    var first := Apply(s, AnswerInit(i));
    assert first.flights[j] == g && first.held == s.held;
    var both := Apply(first, AnswerInit(j));
    assert both.flights[i] == f.(phase := Granted) && both.flights[j] == g.(phase := Granted);
    var one := Apply(both, Deliver(j));
    assert one.flights[i] == f.(phase := Granted);
  }

  /** Node `n` holds `data` under `k`. */
  ghost predicate Has(s: State, n: Key, k: Key, data: Bytes) {
    n in s.held && k in s.held[n] && s.held[n][k] == data
  }

  /** A call on its way to `n` with other data that is forced or has been told to continue. */
  ghost predicate Endangers(f: Flight, n: Key, k: Key, data: Bytes) {
    f.dst == n && f.entry.k == k && f.entry.data != data && (f.phase.Granted? || f.force)
  }

  /** A publish of other data that is forced or is under way at `n` itself. */
  ghost predicate Threatens(h: Hand, n: Key, k: Key, data: Bytes) {
    h.entry.k == k && h.entry.data != data && (h.src == n || h.force)
  }

  /**
   Node `n` holds `data` under `k`, and whatever else is on its way there under `k`
   is unforced and has not been told to continue.
   */
  ghost predicate Protected(s: State, n: Key, k: Key, data: Bytes) {
    && Has(s, n, k, data)
    && (forall i :: 0 <= i < |s.flights| ==> !Endangers(s.flights[i], n, k, data))
    && (forall i :: 0 <= i < |s.hands| ==> !Threatens(s.hands[i], n, k, data))
  }

  /** The steps that can end the protection: the chunk goes, or other data is set by force or at the node itself. */
  ghost predicate Disturbs(a: Action, n: Key, k: Key, data: Bytes) {
    match a
    case Depart(m) => m == n
    case Expire(m, x) => m == n && x == k
    case Republish(m, x) => m == n && x == k
    case Set(m, e, force) => e.k == k && e.data != data && (m == n || force)
    case _ => false
  }

  ghost predicate Undisturbed(run: seq<Action>, n: Key, k: Key, data: Bytes) {
    forall j :: 0 <= j < |run| ==> !Disturbs(run[j], n, k, data)
  }

  lemma ApplyKeepsProtected(s: State, a: Action, n: Key, k: Key, data: Bytes)
    requires Protected(s, n, k, data) && !Disturbs(a, n, k, data)
    ensures Protected(Apply(s, a), n, k, data)
  {
  }

  /**
   What `StoreInit` is for: a chunk that is there is never replaced, over any run of
   unforced sets at other nodes, however their calls and answers interleave.
   */
  lemma {:induction false} HeldChunkIsProtected(s: State, run: seq<Action>, n: Key, k: Key, data: Bytes)
    requires Protected(s, n, k, data)
    requires Undisturbed(run, n, k, data)
    ensures Protected(Run(s, run), n, k, data)
  {
    if run != [] {
      hide Protected, Disturbs, Apply;
      HeldChunkIsProtected(s, run[..|run| - 1], n, k, data);
      ApplyKeepsProtected(Run(s, run[..|run| - 1]), run[|run| - 1], n, k, data);
    }
  }

  lemma RunAppend(s: State, run: seq<Action>, a: Action)
    ensures Run(s, run + [a]) == Apply(Run(s, run), a)
  {
    assert (run + [a])[..|run|] == run;
  }

  /** A call to `n` with other data that is forced or was told to continue gets there. */
  lemma FlightReplaces(s: State, n: Key, k: Key, data: Bytes, i: nat) returns (run: seq<Action>)
    requires Has(s, n, k, data) && i < |s.flights| && Endangers(s.flights[i], n, k, data)
    ensures Undisturbed(run, n, k, data)
    ensures Has(Run(s, run), n, k, s.flights[i].entry.data)
  {
    if s.flights[i].phase.Granted? {
      run := [] + [Deliver(i)];
      RunAppend(s, [], Deliver(i));
    } else {
      var first := [] + [AnswerInit(i)];
      run := first + [Deliver(i)];
      RunAppend(s, [], AnswerInit(i));
      RunAppend(s, first, Deliver(i));
    }
  }

  /** A publish of other data at `n` ends there; a forced one at another node reaches `n` if that node runs. */
  lemma HandReplaces(s: State, n: Key, k: Key, data: Bytes, i: nat) returns (run: seq<Action>)
    requires Has(s, n, k, data) && i < |s.hands| && Threatens(s.hands[i], n, k, data)
    ensures Undisturbed(run, n, k, data)
    ensures Has(Run(s, run), n, k, s.hands[i].entry.data)
  {
    var h := s.hands[i];
    if h.src == n {
      run := [] + [KeepLocal(i)];
      RunAppend(s, [], KeepLocal(i));
    } else {
      var join, sent := [] + [Join(h.src)], [] + [Join(h.src)] + [SendInit(i, n)];
      RunAppend(s, [], Join(h.src));
      RunAppend(s, join, SendInit(i, n));
      var t := Run(s, sent);
      var j := |s.flights|;
      assert t.flights == s.flights + [Flight(n, h.entry, true, Asking)] && Has(t, n, k, data);
      var asked := sent + [AnswerInit(j)];
      RunAppend(s, sent, AnswerInit(j));
      run := asked + [Deliver(j)];
      RunAppend(s, asked, Deliver(j));
    }
  }

  lemma UnprotectedCanBeReplaced(s: State, n: Key, k: Key, data: Bytes) returns (run: seq<Action>)
    requires Has(s, n, k, data) && !Protected(s, n, k, data)
    ensures Undisturbed(run, n, k, data) && !Has(Run(s, run), n, k, data)
  {
    hide Undisturbed, Run;
    if i :| 0 <= i < |s.flights| && Endangers(s.flights[i], n, k, data) {
      run := FlightReplaces(s, n, k, data, i);
    } else {
      var i :| 0 <= i < |s.hands| && Threatens(s.hands[i], n, k, data);
      run := HandReplaces(s, n, k, data, i);
    }
  }

  /** And exactly that: a held chunk survives every such run if and only if it is protected. */
  lemma HeldChunkStaysExactly(s: State, n: Key, k: Key, data: Bytes)
    requires Has(s, n, k, data)
    ensures (forall run :: Undisturbed(run, n, k, data) ==> Has(Run(s, run), n, k, data)) <==> Protected(s, n, k, data)
  {
    hide Undisturbed, Run;
    if Protected(s, n, k, data) {
      forall run | Undisturbed(run, n, k, data) ensures Has(Run(s, run), n, k, data) {
        HeldChunkIsProtected(s, run, n, k, data);
      }
    } else {
      var run := UnprotectedCanBeReplaced(s, n, k, data);
    }
  }
}
