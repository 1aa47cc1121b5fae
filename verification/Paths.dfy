/** Addressing the nodes of a trie by path, and replacing one subtree. */
module Paths {
  import opened Keys
  import opened Tries

  /** How to walk from the root to a node; the last step is outermost. */
  datatype Path = Root | Step(up: Path, bit: bool)

  function Depth(q: Path): nat {
    if q.Root? then 0 else 1 + Depth(q.up)
  }

  /** The key `k` is routed through the node at `q`. */
  ghost predicate Routed(q: Path, k: Key) {
    q.Step? ==> Routed(q.up, k) && Depth(q.up) < KEYBITS && k[Depth(q.up)] == q.bit
  }

  /** The node at `r` is the one at `q` or above it. */
  ghost predicate Above(r: Path, q: Path) {
    r == q || (q.Step? && Above(r, q.up))
  }

  lemma {:induction false} UpIsAbove(r: Path, q: Path)
    requires Above(r, q) && r.Step?
    ensures Above(r.up, q) && !Above(r, r.up)
  {
    if r != q {
      UpIsAbove(r, q.up);
    }
    if Above(r, r.up) {
      AboveItself(r.up, r);
    }
  }

  ghost predicate Has(t: Trie, q: Path)
    decreases q, 0
  {
    q.Step? ==> Has(t, q.up) && Sub(t, q.up).Joint?
  }

  ghost function Sub(t: Trie, q: Path): Trie
    requires Has(t, q)
    decreases q, 1
  {
    if q.Root? then t else Sub(t, q.up).Child(q.bit)
  }

  /** `t` with the subtree at `q` replaced by `s`. */
  ghost function Graft(t: Trie, q: Path, s: Trie): Trie
    requires Has(t, q)
  {
    if q.Root? then s else Graft(t, q.up, Sub(t, q.up).WithChild(q.bit, s))
  }

  lemma {:induction false} HasAbove(t: Trie, q: Path, r: Path)
    requires Has(t, q) && Above(r, q)
    ensures Has(t, r)
    ensures r != q ==> Sub(t, r).Joint?
  {
    if r != q {
      HasAbove(t, q.up, r);
    }
  }

  lemma {:induction false} SubFits(t: Trie, q: Path)
    requires Has(t, q) && Fits(t, 0)
    ensures Fits(Sub(t, q), Depth(q))
  {
    if q.Step? {
      SubFits(t, q.up);
    }
  }

  lemma {:induction false} GraftFits(t: Trie, q: Path, s: Trie)
    requires Has(t, q) && Fits(t, 0) && Fits(s, Depth(q))
    ensures Fits(Graft(t, q, s), 0)
  {
    if q.Step? {
      SubFits(t, q.up);
      GraftFits(t, q.up, Sub(t, q.up).WithChild(q.bit, s));
    }
  }

  lemma {:induction false} GraftAtSelf(t: Trie, q: Path, s: Trie)
    requires Has(t, q)
    ensures Has(Graft(t, q, s), q) && Sub(Graft(t, q, s), q) == s
  {
    if q.Step? {
      GraftAtSelf(t, q.up, Sub(t, q.up).WithChild(q.bit, s));
    }
  }

  /** Above the graft, counts change by the same amount as at the graft. */
  lemma {:induction false} GraftAbove(t: Trie, q: Path, s: Trie, r: Path)
    requires Has(t, q) && Above(r, q)
    ensures Has(t, r) && Has(Graft(t, q, s), r)
    ensures Count(Sub(Graft(t, q, s), r)) == Count(Sub(t, r)) - Count(Sub(t, q)) + Count(s)
    ensures r != q ==> Sub(t, r).Joint? && Sub(Graft(t, q, s), r).Joint?
  {
    if r == q {
      GraftAtSelf(t, q, s);
    } else {
      GraftAtSelf(t, q.up, Sub(t, q.up).WithChild(q.bit, s));
      GraftAbove(t, q.up, Sub(t, q.up).WithChild(q.bit, s), r);
    }
  }

  /** Next to the way to the graft, nothing changes. */
  lemma {:induction false} GraftBeside(t: Trie, q: Path, s: Trie, r: Path, bit: bool)
    requires Has(t, q) && r != q && Above(r, q) && !Above(Step(r, bit), q)
    ensures var u := Graft(t, q, s);
      && Has(t, Step(r, bit)) && Has(u, Step(r, bit))
      && Sub(u, Step(r, bit)) == Sub(t, Step(r, bit))
  {
    var s' := Sub(t, q.up).WithChild(q.bit, s);
    if r == q.up {
      GraftAtSelf(t, q.up, s');
    } else {
      GraftBeside(t, q.up, s', r, bit);
    }
  }

  /** Away from the graft, nothing changes. */
  lemma {:induction false} GraftAway(t: Trie, q: Path, s: Trie, r: Path)
    requires Has(t, q) && !Above(r, q) && !Above(q, r)
    ensures var u := Graft(t, q, s); (Has(u, r) <==> Has(t, r)) && (Has(t, r) ==> Sub(u, r) == Sub(t, r))
    decreases r
  {
    if r.Step? {
      if Above(r.up, q) {
        GraftBeside(t, q, s, r.up, r.bit);
      } else {
        GraftAway(t, q, s, r.up);
      }
    } else {
      RootIsAbove(q);
    }
  }

  lemma {:induction false} RootIsAbove(q: Path)
    ensures Above(Root, q)
  {
    if q.Step? {
      RootIsAbove(q.up);
    }
  }

  /** Nothing hangs below a leaf. */
  lemma {:induction false} BelowLeaf(t: Trie, q: Path, r: Path)
    requires Has(t, q) && Sub(t, q).Leaf? && Above(q, r) && r != q
    ensures !Has(t, r)
  {
    if r.up != q {
      BelowLeaf(t, q, r.up);
    }
  }

  /** What replacing the leaf at `q` by another leaf does to the node at `r`. */
  lemma LeafGraftAt(t: Trie, q: Path, s: Trie, r: Path)
    requires Has(t, q) && Sub(t, q).Leaf? && s.Leaf?
    ensures var u := Graft(t, q, s);
      && (Has(u, r) <==> Has(t, r))
      && (Has(t, r) ==>
           && (r == q ==> Sub(u, r) == s)
           && (!Above(r, q) ==> Sub(u, r) == Sub(t, r))
           && (Above(r, q) ==> Count(Sub(u, r)) == Count(Sub(t, r)) - Count(Sub(t, q)) + Count(s))
           && (Above(r, q) && r != q ==> Sub(u, r).Joint? && Sub(t, r).Joint?))
  {
    GraftAtSelf(t, q, s);
    if Above(r, q) {
      GraftAbove(t, q, s, r);
    } else if Above(q, r) {
      BelowLeaf(t, q, r);
      BelowLeaf(Graft(t, q, s), q, r);
    } else {
      GraftAway(t, q, s, r);
    }
  }

  lemma LeafGraftShape(t: Trie, q: Path, b: seq<Peer>)
    requires Has(t, q) && Sub(t, q).Leaf? && Fits(t, 0)
    ensures Fits(Graft(t, q, Leaf(b)), 0)
    ensures forall r :: Has(Graft(t, q, Leaf(b)), r) <==> Has(t, r)
  {
    SubFits(t, q);
    GraftFits(t, q, Leaf(b));
    forall r ensures Has(Graft(t, q, Leaf(b)), r) <==> Has(t, r) {
      LeafGraftAt(t, q, Leaf(b), r);
    }
  }

  /** What splitting the leaf at `q` does to the node at `r`. */
  lemma SplitGraftAt(t: Trie, q: Path, b: seq<Peer>, r: Path)
    requires Has(t, q) && Sub(t, q) == Leaf(b) && Depth(q) < KEYBITS
    ensures var u := Graft(t, q, Split(b, Depth(q)));
      && (Has(u, r) <==> Has(t, r) || r == Step(q, false) || r == Step(q, true))
      && (r == q ==> Sub(u, r) == Split(b, Depth(q)))
      && (r.Step? && r.up == q ==> Sub(u, r) == Leaf(Half(b, Depth(q), r.bit)))
      && (Has(t, r) ==> Count(Sub(u, r)) == Count(Sub(t, r)))
      && (Has(t, r) && r != q ==> Sub(u, r).Leaf? == Sub(t, r).Leaf?)
      && (Has(t, r) && r != q && Sub(t, r).Leaf? ==> Sub(u, r) == Sub(t, r))
  {
    var s := Split(b, Depth(q));
    var u := Graft(t, q, s);
    HalvesCount(b, Depth(q));
    GraftAtSelf(t, q, s);
    if Above(r, q) {
      GraftAbove(t, q, s, r);
      if r.Step? && r.up == q {
        AboveItself(q, r);
      }
    } else if Above(q, r) {
      BelowLeaf(t, q, r);
      if r.up != q {
        PathViaIs(q, r);
        BelowLeaf(u, Step(q, PathVia(q, r)), r);
      }
    } else {
      GraftAway(t, q, s, r);
    }
  }

  /** No path is below itself. */
  lemma {:induction false} AboveItself(q: Path, r: Path)
    requires Above(r, q)
    ensures Depth(r) <= Depth(q)
  {
    if r != q {
      AboveItself(q.up, r);
    }
  }

  /** The first bit of the way from `q` down to `r`. */
  lemma {:induction false} PathViaIs(q: Path, r: Path)
    requires Above(q, r) && r != q
    ensures Above(Step(q, PathVia(q, r)), r)
  {
    if r.up != q {
      PathViaIs(q, r.up);
    }
  }

  ghost function PathVia(q: Path, r: Path): bool
    requires Above(q, r) && r != q
  {
    if r.up == q then r.bit else PathVia(q, r.up)
  }

  lemma SplitGraftShape(t: Trie, q: Path, b: seq<Peer>)
    requires Has(t, q) && Sub(t, q) == Leaf(b) && Fits(t, 0) && Depth(q) + 1 < KEYBITS
    ensures Fits(Graft(t, q, Split(b, Depth(q))), 0)
    ensures !Has(t, Step(q, false)) && !Has(t, Step(q, true))
    ensures forall r :: Has(Graft(t, q, Split(b, Depth(q))), r) <==>
                        Has(t, r) || r == Step(q, false) || r == Step(q, true)
  {
    var u := Graft(t, q, Split(b, Depth(q)));
    GraftFits(t, q, Split(b, Depth(q)));
    forall r ensures Has(u, r) <==> Has(t, r) || r == Step(q, false) || r == Step(q, true) {
      SplitGraftAt(t, q, b, r);
    }
  }

  /** Inserting at the root is inserting at any node on the way. */
  lemma {:induction false} InsertAt(t: Trie, q: Path, self: Key, x: Peer)
    requires Has(t, q) && Fits(t, 0) && Routed(q, x.key)
    ensures Fits(Sub(t, q), Depth(q))
    ensures var r := Insert(Sub(t, q), Depth(q), self, x);
      Insert(t, 0, self, x) == r.(t := Graft(t, q, r.t))
  {
    SubFits(t, q);
    if q.Step? {
      InsertAt(t, q.up, self, x);
    }
  }

  lemma {:induction false} EvictAt(t: Trie, q: Path, k: Key)
    requires Has(t, q) && Fits(t, 0) && Routed(q, k)
    ensures Fits(Sub(t, q), Depth(q))
    ensures Evict(t, 0, k) == Graft(t, q, Evict(Sub(t, q), Depth(q), k))
  {
    SubFits(t, q);
    if q.Step? {
      EvictAt(t, q.up, k);
    }
  }

  /** Inserting into a leaf that needs no split. */
  lemma InsertIntoLeaf(b: seq<Peer>, d: nat, self: Key, x: Peer)
    requires d < KEYBITS
    ensures var r := Insert(Leaf(b), d, self, x);
      && (Find(b, x.key) < |b| ==> r == Inserted(Leaf(Touched(b, Find(b, x.key), x))))
      && (Find(b, x.key) == |b| < KBUCKET_MAX ==> r == Inserted(Leaf([x] + b)))
      && (Find(b, x.key) == |b| >= KBUCKET_MAX && (x.key[d] != self[d] || d + 1 == KEYBITS) ==>
            r == Refused(Leaf(b), b[|b| - 1]))
  {
  }

  /** What inserting at the root gives when the way of the key ends in such a leaf. */
  lemma InsertAtLeaf(t: Trie, q: Path, b: seq<Peer>, self: Key, x: Peer)
    requires Has(t, q) && Sub(t, q) == Leaf(b) && Fits(t, 0) && Routed(q, x.key)
    ensures Depth(q) < KEYBITS
    ensures var r := Insert(t, 0, self, x);
      && (Find(b, x.key) < |b| ==> r == Inserted(Graft(t, q, Leaf(Touched(b, Find(b, x.key), x)))))
      && (Find(b, x.key) == |b| < KBUCKET_MAX ==> r == Inserted(Graft(t, q, Leaf([x] + b))))
      && (Find(b, x.key) == |b| >= KBUCKET_MAX && (x.key[Depth(q)] != self[Depth(q)] || Depth(q) + 1 == KEYBITS) ==>
            r == Refused(t, b[|b| - 1]))
  {
    hide Insert;
    InsertAt(t, q, self, x);
    InsertIntoLeaf(b, Depth(q), self, x);
    GraftSame(t, q);
  }

  lemma EvictAtLeaf(t: Trie, q: Path, b: seq<Peer>, k: Key)
    requires Has(t, q) && Sub(t, q) == Leaf(b) && Fits(t, 0) && Routed(q, k)
    ensures Find(b, k) < |b| ==> Evict(t, 0, k) == Graft(t, q, Leaf(Erased(b, Find(b, k))))
    ensures Find(b, k) == |b| ==> Evict(t, 0, k) == t
  {
    EvictAt(t, q, k);
    GraftSame(t, q);
  }

  lemma {:induction false} GraftSame(t: Trie, q: Path)
    requires Has(t, q)
    ensures Graft(t, q, Sub(t, q)) == t
  {
    if q.Step? {
      GraftSame(t, q.up);
    }
  }

  lemma {:induction false} GraftTwice(t: Trie, q: Path, s: Trie, u: Trie)
    requires Has(t, q)
    ensures Has(Graft(t, q, s), q) && Graft(Graft(t, q, s), q, u) == Graft(t, q, u)
  {
    GraftAtSelf(t, q, s);
    if q.Step? {
      var j := Sub(t, q.up);
      GraftAtSelf(t, q.up, j.WithChild(q.bit, s));
      GraftTwice(t, q.up, j.WithChild(q.bit, s), j.WithChild(q.bit, u));
    }
  }

  /** Splitting a full leaf first does not change what an insertion through it gives. */
  lemma SplitThenInsert(t: Trie, q: Path, b: seq<Peer>, self: Key, x: Peer)
    requires Fits(t, 0) && Has(t, q) && Sub(t, q) == Leaf(b) && Routed(q, x.key)
    requires Find(b, x.key) == |b| >= KBUCKET_MAX
    requires Depth(q) + 1 < KEYBITS && x.key[Depth(q)] == self[Depth(q)]
    ensures Fits(Graft(t, q, Split(b, Depth(q))), 0)
    ensures Insert(Graft(t, q, Split(b, Depth(q))), 0, self, x) == Insert(t, 0, self, x)
  {
    var s := Split(b, Depth(q));
    InsertIntoFullLeaf(b, Depth(q), self, x);
    GraftFits(t, q, s);
    hide Insert, Graft, Split, Half, Fits, Sub;
    InsertAt(t, q, self, x);
    GraftTwice(t, q, s, Insert(s, Depth(q), self, x).t);
    GraftAtSelf(t, q, s);
    InsertAt(Graft(t, q, s), q, self, x);
  }

  lemma InsertIntoFullLeaf(b: seq<Peer>, d: nat, self: Key, x: Peer)
    requires Find(b, x.key) == |b| >= KBUCKET_MAX && d + 1 < KEYBITS && x.key[d] == self[d]
    ensures Fits(Split(b, d), d) && Insert(Leaf(b), d, self, x) == Insert(Split(b, d), d, self, x)
  {
    hide Half;
  }
}
