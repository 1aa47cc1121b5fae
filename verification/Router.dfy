/**
 The routing table of src/dht/router.cpp as the mutable, parent-linked tree of
 nodes it is.  The ghost trie `model` is what the tree stands for; `at` finds
 the node of every path of that trie.
 */
module Routers {
  import opened Keys
  import opened Tries
  import opened Queries
  import opened Paths

  lemma Assoc(a: seq<Peer>, b: seq<Peer>, c: seq<Peer>)
    ensures (a + b) + c == a + (b + c)
    ensures [] + c == c
  {
  }

  /** Appending the answers of the two sides one after the other is appending the joint's answer. */
  lemma AppendClosest(found: seq<Peer>, t: Trie, d: nat, k: Key, n: nat)
    requires Fits(t, d)
    ensures t.Leaf? ==> found + Closest(t, d, k, n) == found + t.bucket[..Min(n, |t.bucket|)]
    ensures t.Joint? ==>
      var preferred, alternate := t.Child(k[d]), t.Child(!k[d]);
      && Fits(preferred, d + 1) && Fits(alternate, d + 1)
      && var a := found + Closest(preferred, d + 1, k, n);
      found + Closest(t, d, k, n) ==
        if n < Count(preferred) then a + Closest(alternate, d + 1, k, Count(preferred) - n) else a
  {
    if t.Joint? {
      ClosestOfJoint(t, d, k, n);
      var preferred, alternate := t.Child(k[d]), t.Child(!k[d]);
      if n < Count(preferred) {
        Assoc(found, Closest(preferred, d + 1, k, n), Closest(alternate, d + 1, k, Count(preferred) - n));
      }
    }
  }

  /** `std::deque<Peer*>& buffer`: an output list that callers share and append to. */
  class PeerBuffer {
    var peers: seq<Peer>

    constructor ()
      ensures peers == []
    {
      peers := [];
    }
  }

  class BinaryTree {
    var leaf: bool
    var splitBitIndex: nat
    var keyCount: nat
    var parent: BinaryTree?
    var zeroTree: BinaryTree?
    var oneTree: BinaryTree?
    var kbucket: seq<Peer>
    ghost var path: Path

    constructor (splitBitIndex: nat, parent: BinaryTree?, ghost path: Path)
      ensures leaf && kbucket == [] && keyCount == 0 && zeroTree == null && oneTree == null
      ensures this.splitBitIndex == splitBitIndex && this.parent == parent && this.path == path
    {
      this.leaf := true;
      this.splitBitIndex := splitBitIndex;
      this.keyCount := 0;
      this.parent := parent;
      this.zeroTree := null;
      this.oneTree := null;
      this.kbucket := [];
      this.path := path;
    }

    /** The position of `k` in the bucket, or the bucket's size. */
    method IndexOf(k: Key) returns (j: nat)
      ensures j == Find(kbucket, k)
    {
      j := 0;
      while j < |kbucket|
        invariant j <= |kbucket|
        invariant forall l :: 0 <= l < j ==> kbucket[l].key != k
      {
        if kbucket[j].key == k {
          return;
        }
        j := j + 1;
      }
    }

    /** Append the first `n` peers of the bucket, in order. */
    method Report(n: nat, found: seq<Peer>) returns (buffer: seq<Peer>)
      ensures buffer == found + kbucket[..Min(n, |kbucket|)]
    {
      buffer := found;
      var i := 0;
      while i < n && i < |kbucket|
        invariant i <= n && i <= |kbucket|
        invariant buffer == found + kbucket[..i]
      {
        buffer := buffer + [kbucket[i]];
        i := i + 1;
      }
    }

    method PushBack(peer: Peer)
      modifies this`kbucket, this`keyCount
      ensures kbucket == old(kbucket) + [peer] && keyCount == old(keyCount) + 1
    {
      kbucket := kbucket + [peer];
      keyCount := keyCount + 1;
    }

    /** Turn a leaf into a joint and deal its peers out to two new leaves, in order. */
    method Split()
      requires leaf && 0 < splitBitIndex < KEYBITS
      modifies this
      ensures !leaf && kbucket == []
      ensures splitBitIndex == old(splitBitIndex) && keyCount == old(keyCount)
      ensures parent == old(parent) && path == old(path)
      ensures zeroTree != null && fresh(zeroTree) && zeroTree.IsNewChild(this, old(kbucket), false)
      ensures oneTree != null && fresh(oneTree) && oneTree.IsNewChild(this, old(kbucket), true)
      ensures zeroTree != oneTree
    {
      ghost var d := KEYBITS - 1 - splitBitIndex;
      leaf := false;
      var zero: BinaryTree := new BinaryTree(splitBitIndex - 1, this, Step(path, false));
      var one: BinaryTree := new BinaryTree(splitBitIndex - 1, this, Step(path, true));
      zeroTree, oneTree := zero, one;
      while |kbucket| > 0
        modifies this`kbucket, zero`kbucket, zero`keyCount, one`kbucket, one`keyCount
        invariant zero.kbucket + Half(kbucket, d, false) == Half(old(kbucket), d, false)
        invariant one.kbucket + Half(kbucket, d, true) == Half(old(kbucket), d, true)
        invariant zero.keyCount == |zero.kbucket| && one.keyCount == |one.kbucket|
        decreases |kbucket|
      {
        var peer := kbucket[0];
        Assoc(zero.kbucket, [peer], Half(kbucket[1..], d, false));
        Assoc(one.kbucket, [peer], Half(kbucket[1..], d, true));
        kbucket := kbucket[1..];
        var tree := if Bit(peer.key, splitBitIndex) then one else zero;
        tree.PushBack(peer);
      }
    }

    ghost predicate IsNewChild(above: BinaryTree, bucket: seq<Peer>, bit: bool)
      reads this, above
    {
      && leaf && zeroTree == null && oneTree == null
      && above.splitBitIndex < KEYBITS
      && splitBitIndex == above.splitBitIndex - 1
      && parent == above && path == Step(above.path, bit)
      && kbucket == Half(bucket, KEYBITS - 1 - above.splitBitIndex, bit)
      && keyCount == |kbucket|
    }
  }

  class Router {
    const selfPeer: Peer
    const table: BinaryTree
    ghost var model: Trie
    ghost var at: map<Path, BinaryTree>
    ghost var nodes: set<BinaryTree>

    /** The node at path `q` stores what the trie `t` says. */
    ghost predicate NodeOk(t: Trie, q: Path)
      reads this`at, this`nodes, nodes
    {
      && q in at && at[q] in nodes && Has(t, q) && Depth(q) < KEYBITS
      && var n, s := at[q], Sub(t, q);
      && n.path == q
      && n.splitBitIndex == KEYBITS - 1 - Depth(q)
      && n.leaf == s.Leaf?
      && n.keyCount == Count(s)
      && (if q.Root? then n.parent == null else q.up in at && n.parent == at[q.up])
      && (s.Leaf? ==> n.kbucket == s.bucket && n.zeroTree == null && n.oneTree == null)
      && (s.Joint? ==>
            && n.kbucket == []
            && Step(q, false) in at && n.zeroTree == at[Step(q, false)]
            && Step(q, true) in at && n.oneTree == at[Step(q, true)])
    }

    ghost predicate LinkedTo(t: Trie)
      reads this`at, this`nodes, nodes
    {
      && (forall q :: q in at <==> Has(t, q))
      && (forall q {:trigger NodeOk(t, q)} :: q in at ==> NodeOk(t, q))
      && Root in at && table == at[Root]
    }

    /** The tree of nodes is the trie `model`. */
    ghost predicate Linked()
      reads this, nodes
    {
      && Fits(model, 0)
      && LinkedTo(model)
    }

    ghost predicate Valid()
      reads this, nodes
    {
      Linked() && Wf(model, [], selfPeer.key) && Shallow(model, 0)
    }

    /** Following `parent` from the node at `path` visits the prefixes of `path`, down to the root. */
    ghost predicate Spine(path: Path)
      reads this`at, this`nodes, nodes
    {
      && path in at && Root in at && at[Root] in nodes && at[Root].parent == null
      && (forall q :: q in at ==> at[q] in nodes && at[q].path == q)
      && (forall r :: Above(r, path) ==> r in at)
      && (forall r {:trigger at[r].parent} :: Above(r, path) && r.Step? ==>
           r.up in at && at[r].parent == at[r.up])
    }

    lemma LinkedSpine(path: Path)
      requires Linked() && path in at && at[path].leaf
      ensures Spine(path)
      ensures forall r :: Above(r, path) ==> at[r].keyCount >= |at[path].kbucket|
    {
      assert NodeOk(model, Root) && NodeOk(model, path);
      forall q | q in at ensures at[q] in nodes && at[q].path == q {
        assert NodeOk(model, q);
      }
      forall r | Above(r, path) ensures r in at && at[r].keyCount >= |at[path].kbucket| {
        HasAbove(model, path, r);
        assert NodeOk(model, r);
        GraftAbove(model, path, Leaf([]), r);
      }
      forall r | Above(r, path) && r.Step? ensures r.up in at && at[r].parent == at[r.up] {
        assert NodeOk(model, r);
      }
    }

    /** Add `delta` to the count of `tree` and of every node above it. */
    method Recount(tree: BinaryTree, ghost path: Path, delta: int)
      requires Spine(path) && at[path] == tree
      requires forall r :: Above(r, path) ==> at[r].keyCount + delta >= 0
      modifies nodes`keyCount
      ensures forall q :: q in at ==> at[q].keyCount == old(at[q].keyCount) + if Above(q, path) then delta else 0
    {
      var cur: BinaryTree? := tree;
      ghost var r := path;
      while cur != null
        invariant cur != null ==> Above(r, path) && cur == at[r]
        invariant forall q :: q in at ==>
                    at[q].keyCount == old(at[q].keyCount) +
                      if Above(q, path) && !(cur != null && Above(q, r)) then delta else 0
        decreases if cur == null then 0 else Depth(r) + 1
      {
        cur.keyCount := cur.keyCount + delta;
        cur := cur.parent;
        if r.Step? {
          UpIsAbove(r, path);
          r := r.up;
        }
      }
    }

    /** Write the bucket of the leaf `tree`, then fix the counts up to the root. */
    method WriteBucket(tree: BinaryTree, ghost path: Path, b: seq<Peer>)
      requires Linked() && path in at && at[path] == tree && tree.leaf
      modifies nodes`kbucket, nodes`keyCount
      ensures forall q :: q in at ==> at[q].kbucket == if q == path then b else old(at[q].kbucket)
      ensures forall q :: q in at ==>
                at[q].keyCount == old(at[q].keyCount) + if Above(q, path) then |b| - |old(tree.kbucket)| else 0
    {
      LinkedSpine(path);
      var delta := |b| - |tree.kbucket|;
      tree.kbucket := b;
      if delta != 0 {
        Recount(tree, path, delta);
      }
    }

    /** Give the leaf `tree` a new bucket: the trie gets a new leaf at `path`. */
    method SetBucket(tree: BinaryTree, ghost path: Path, b: seq<Peer>)
      requires Linked() && path in at && at[path] == tree && tree.leaf
      modifies nodes`kbucket, nodes`keyCount, this`model
      ensures Linked() && Has(old(model), path) && model == Graft(old(model), path, Leaf(b))
    {
      assert NodeOk(model, path);
      ghost var was := model;
      WriteBucket(tree, path, b);
      model := Graft(was, path, Leaf(b));
      forall q | q in at ensures NodeOk(model, q) {
        assert old(NodeOk(model, q));
        LeafGraftAt(was, path, Leaf(b), q);
      }
      LeafGraftShape(was, path, b);
    }

    /** After the leaf at `path` became a joint over two new leaves, the nodes are the grafted trie. */
    lemma Relink(was: Trie, path: Path, b: seq<Peer>)
      requires Has(was, path) && Sub(was, path) == Leaf(b) && Fits(was, 0) && Depth(path) + 1 < KEYBITS
      requires forall q :: q in at <==> Has(was, q) || q == Step(path, false) || q == Step(path, true)
      requires forall q {:trigger NodeOk(was, q)} :: Has(was, q) && q != path ==> NodeOk(was, q)
      requires Root in at && table == at[Root]
      requires NodeOk(Graft(was, path, Split(b, Depth(path))), path)
      requires NodeOk(Graft(was, path, Split(b, Depth(path))), Step(path, false))
      requires NodeOk(Graft(was, path, Split(b, Depth(path))), Step(path, true))
      ensures LinkedTo(Graft(was, path, Split(b, Depth(path))))
    {
      var t := Graft(was, path, Split(b, Depth(path)));
      SplitGraftShape(was, path, b);
      forall q | q in at ensures NodeOk(t, q) {
        if q != path && q != Step(path, false) && q != Step(path, true) {
          assert NodeOk(was, q);
          SplitGraftAt(was, path, b, q);
        }
      }
    }

    /** Split the node `tree` and record the two new nodes; every other node is as it was. */
    method SplitNode(tree: BinaryTree, ghost path: Path)
      requires Linked() && path in at && at[path] == tree && tree.leaf && tree.splitBitIndex > 0
      modifies nodes, this`at, this`nodes
      ensures fresh(nodes - old(nodes)) && nodes >= old(nodes)
      ensures forall q :: q in at <==> Has(model, q) || q == Step(path, false) || q == Step(path, true)
      ensures forall q {:trigger NodeOk(model, q)} :: Has(model, q) && q != path ==> NodeOk(model, q)
      ensures Root in at && at[Root] == table && path in at && at[path] == tree
      ensures path.Step? ==> path.up in at && tree.parent == at[path.up]
      ensures path.Root? ==> tree.parent == null
      ensures !tree.leaf && tree.kbucket == [] && tree.path == path
      ensures tree.splitBitIndex == old(tree.splitBitIndex) && tree.keyCount == old(tree.keyCount)
      ensures at[Step(path, false)] in nodes && tree.zeroTree == at[Step(path, false)]
      ensures at[Step(path, true)] in nodes && tree.oneTree == at[Step(path, true)]
      ensures at[Step(path, false)].IsNewChild(tree, old(tree.kbucket), false)
      ensures at[Step(path, true)].IsNewChild(tree, old(tree.kbucket), true)
    {
      assert NodeOk(model, path);
      SplitGraftShape(model, path, tree.kbucket);
      tree.Split();
      forall q | Has(model, q) && q != path ensures NodeOk(model, q) {
        assert old(NodeOk(model, q));
      }
      Adopt(path, tree.zeroTree, tree.oneTree);
    }

    /** Record the two new nodes under `path`; every other node is as it was. */
    ghost method Adopt(path: Path, zero: BinaryTree, one: BinaryTree)
      requires !Has(model, Step(path, false)) && !Has(model, Step(path, true))
      requires forall q :: q in at <==> Has(model, q)
      requires forall q {:trigger NodeOk(model, q)} :: Has(model, q) && q != path ==> NodeOk(model, q)
      modifies this`at, this`nodes
      ensures nodes == old(nodes) + {zero, one}
      ensures at == old(at)[Step(path, false) := zero][Step(path, true) := one]
      ensures at[Step(path, false)] == zero
      ensures forall q :: Has(model, q) ==> at[q] == old(at)[q]
      ensures forall q {:trigger NodeOk(model, q)} :: Has(model, q) && q != path ==> NodeOk(model, q)
    {
      ghost var z, o := Step(path, false), Step(path, true);
      at := at[z := zero][o := one];
      nodes := nodes + {zero, one};
      forall q | Has(model, q) && q != path ensures NodeOk(model, q) {
        assert old(NodeOk(model, q));
      }
    }

    /** Split the leaf `tree`, which must not be at the last bit: the trie is split at `path`. */
    method SplitLeaf(tree: BinaryTree, ghost path: Path)
      requires Linked() && path in at && at[path] == tree && tree.leaf && tree.splitBitIndex > 0
      modifies nodes, this`model, this`at, this`nodes
      ensures Linked() && fresh(nodes - old(nodes))
      ensures path in at && at[path] == tree && !tree.leaf
      ensures Has(old(model), path) && Depth(path) < KEYBITS
      ensures model == Graft(old(model), path, Split(old(tree.kbucket), Depth(path)))
    {
      ghost var was, b := model, tree.kbucket;
      ghost var z, o := Step(path, false), Step(path, true);
      assert NodeOk(was, path);
      SplitGraftShape(was, path, b);
      SplitNode(tree, path);
      SplitGraftAt(was, path, b, z);
      SplitGraftAt(was, path, b, o);
      SplitGraftAt(was, path, b, path);
      Relink(was, path, b);
      model := Graft(was, path, Split(b, Depth(path)));
    }

    constructor (selfPeer: Peer, other: Peer)
      ensures Valid() && fresh(nodes) && this.selfPeer == selfPeer
      ensures model == AttemptInsert(Leaf([]), selfPeer, other).t
    {
      this.selfPeer := selfPeer;
      var root := new BinaryTree(KEYBITS - 1, null, Root);
      this.table := root;
      this.at := map[Root := root];
      this.nodes := {root};
      this.model := Leaf([]);
      new;
      assert NodeOk(model, Root);
      forall q ensures q in at <==> Has(model, q) {
        if q.Step? && Has(model, q) {
          RootIsAbove(q);
          BelowLeaf(model, Root, q);
        }
      }
      var _, _ := AttemptInsertPeer(other);
    }

    /** The child of a joint, on either side. */
    lemma ChildAt(path: Path, bit: bool)
      requires Linked() && path in at && !at[path].leaf
      ensures Has(model, path) && Sub(model, path).Joint? && Depth(path) + 1 < KEYBITS
      ensures at[path].splitBitIndex == KEYBITS - 1 - Depth(path)
      ensures var next := Step(path, bit);
        && next in at && at[next] == (if bit then at[path].oneTree else at[path].zeroTree)
        && Has(model, next) && Sub(model, next) == Sub(model, path).Child(bit)
        && at[next].keyCount == Count(Sub(model, next)) && at[next] in nodes
    {
      assert NodeOk(model, path);
      SubFits(model, path);
      assert NodeOk(model, Step(path, bit));
    }

    /** One step down the tree, along the bit of `k` this joint splits on. */
    method Descend(tree: BinaryTree, ghost path: Path, k: Key) returns (child: BinaryTree, ghost next: Path)
      requires Linked() && path in at && at[path] == tree && Routed(path, k) && !tree.leaf
      ensures Depth(path) + 1 < KEYBITS && next == Step(path, k[Depth(path)])
      ensures Routed(next, k) && next in at && at[next] == child
    {
      assert NodeOk(model, path);
      ChildAt(path, k[Depth(path)]);
      child := if Bit(k, tree.splitBitIndex) then tree.oneTree else tree.zeroTree;
      next := Step(path, k[Depth(path)]);
    }

    /** Refresh the peer if this leaf has it, else push it to the front if there is room. */
    method InsertIntoLeaf(tree: BinaryTree, ghost path: Path, x: Peer) returns (done: bool)
      requires Linked() && path in at && at[path] == tree && tree.leaf
      modifies nodes`kbucket, nodes`keyCount, this`model
      ensures Linked()
      ensures done == (Find(old(tree.kbucket), x.key) < |old(tree.kbucket)| || |old(tree.kbucket)| < KBUCKET_MAX)
      ensures !done ==> model == old(model) && tree.kbucket == old(tree.kbucket)
      ensures Has(old(model), path) && Sub(old(model), path) == Leaf(old(tree.kbucket))
      ensures done ==> model == Graft(old(model), path, Leaf(
        if Find(old(tree.kbucket), x.key) < |old(tree.kbucket)|
        then Touched(old(tree.kbucket), Find(old(tree.kbucket), x.key), x)
        else [x] + old(tree.kbucket)))
    {
      assert NodeOk(model, path);
      var j := tree.IndexOf(x.key);
      if j < |tree.kbucket| {
        SetBucket(tree, path, [x] + (tree.kbucket[..j] + tree.kbucket[j + 1..]));
        return true;
      }
      if |tree.kbucket| < KBUCKET_MAX {
        SetBucket(tree, path, [x] + tree.kbucket);
        return true;
      }
      return false;
    }

    /** The loop of `attempt_insert_peer`: walk to the leaf of the key, splitting leaves on the way. */
    method InsertBelowRoot(x: Peer) returns (inserted: bool, lru: Option<Peer>)
      requires Linked() && x.key != selfPeer.key
      modifies this`model, this`at, this`nodes, nodes
      ensures Linked() && fresh(nodes - old(nodes))
      ensures Fits(old(model), 0)
      ensures inserted <==> lru == None
      ensures Insert(old(model), 0, selfPeer.key, x) ==
              if inserted then Inserted(model) else Refused(model, lru.value)
    {
      hide Insert, Graft, AttemptInsert, Above, Half, Split, Touched, Find, Count;
      ghost var was := model;
      lru := None;
      inserted := false;
      var tree := table;
      ghost var path := Root;
      var i: int := KEYBITS - 1;
      while i >= 0
        invariant Linked() && fresh(nodes - old(nodes))
        invariant 0 <= i && Depth(path) == KEYBITS - 1 - i
        invariant Routed(path, x.key) && path in at && tree == at[path]
        invariant Insert(model, 0, selfPeer.key, x) == Insert(was, 0, selfPeer.key, x)
        invariant !inserted && lru == None
        decreases i
      {
        assert NodeOk(model, path);
        var keyMatch := Bit(x.key, tree.splitBitIndex) == Bit(selfPeer.key, tree.splitBitIndex);
        if !tree.leaf {
          tree, path := Descend(tree, path, x.key);
          i := i - 1;
          continue;
        }
        InsertAtLeaf(model, path, tree.kbucket, selfPeer.key, x);
        inserted := InsertIntoLeaf(tree, path, x);
        if inserted {
          return;
        }
        if keyMatch && tree.splitBitIndex > 0 {
          SplitThenInsert(model, path, tree.kbucket, selfPeer.key, x);
          SplitLeaf(tree, path);
          tree, path := Descend(tree, path, x.key);
          i := i - 1;
          continue;
        }
        lru := Some(tree.kbucket[|tree.kbucket| - 1]);
        break;
      }
    }

    /**
     Insert or refresh a peer.  A false result reports the least recently used
     peer of the full bucket that refused it.
     */
    method AttemptInsertPeer(x: Peer) returns (inserted: bool, lru: Option<Peer>)
      requires Valid()
      modifies this`model, this`at, this`nodes, nodes
      ensures Valid() && fresh(nodes - old(nodes))
      ensures var r := AttemptInsert(old(model), selfPeer, x);
        && model == r.t
        && inserted == r.Inserted?
        && lru == (if r.Refused? then Some(r.lru) else None)
    {
      if x.key == selfPeer.key || x.endpoint == selfPeer.endpoint {
        return true, None;
      }
      InsertKeepsWf(model, [], selfPeer.key, x);
      inserted, lru := InsertBelowRoot(x);
    }

    /** Remove the peer with this key, if the table has it. */
    method EvictPeer(k: Key)
      requires Valid()
      modifies this`model, nodes`kbucket, nodes`keyCount
      ensures Valid() && model == Tries.EvictPeer(old(model), selfPeer, k)
    {
      if k == selfPeer.key {
        return;
      }
      hide Evict, Graft, Above, Half;
      ghost var was := model;
      EvictKeepsWf(was, [], selfPeer.key, k);
      var tree := table;
      ghost var path := Root;
      var i: int := KEYBITS - 1;
      while i >= 0
        invariant Linked() && model == was && -1 <= i
        invariant Routed(path, k) && path in at && tree == at[path] && Depth(path) <= KEYBITS - 1 - i
        invariant !tree.leaf ==> Depth(path) == KEYBITS - 1 - i
        invariant i == -1 ==> tree.leaf
        invariant tree.leaf ==> Find(tree.kbucket, k) == |tree.kbucket| || Depth(path) == KEYBITS - 1 - i
        decreases i
      {
        assert NodeOk(model, path);
        if !tree.leaf {
          tree, path := Descend(tree, path, k);
          assert NodeOk(model, path);
          i := i - 1;
          continue;
        }
        EvictAtLeaf(model, path, tree.kbucket, k);
        var j := tree.IndexOf(k);
        if j < |tree.kbucket| {
          SetBucket(tree, path, tree.kbucket[..j] + tree.kbucket[j + 1..]);
          return;
        }
        i := i - 1;
      }
      assert NodeOk(model, path);
      EvictAtLeaf(model, path, tree.kbucket, k);
    }

    /** The query as written: append what the subtree at `tree` answers to what is found so far. */
    method TreeClosestPeers(tree: BinaryTree, k: Key, n: nat, found: seq<Peer>, ghost path: Path, ghost t: Trie)
      returns (buffer: seq<Peer>)
      requires Linked() && path in at && at[path] == tree
      requires Has(model, path) && Sub(model, path) == t && Fits(t, Depth(path))
      ensures buffer == found + Closest(t, Depth(path), k, n)
      decreases t
    {
      hide Closest, Fits;
      assert NodeOk(model, path);
      AppendClosest(found, t, Depth(path), k, n);
      if tree.leaf {
        buffer := tree.Report(n, found);
        return;
      }
      var keyBit := Bit(k, tree.splitBitIndex);
      var preferred := if keyBit then tree.oneTree else tree.zeroTree;
      var alternate := if keyBit then tree.zeroTree else tree.oneTree;
      ChildAt(path, keyBit);
      ChildAt(path, !keyBit);
      buffer := TreeClosestPeers(preferred, k, n, found, Step(path, keyBit), t.Child(keyBit));
      if n < preferred.keyCount {
        buffer := TreeClosestPeers(alternate, k, preferred.keyCount - n, buffer, Step(path, !keyBit), t.Child(!keyBit));
      }
    }

    method ClosestPeers(k: Key, n: nat, buffer: PeerBuffer)
      requires Valid()
      modifies buffer
      ensures buffer.peers == old(buffer.peers) + Closest(model, 0, k, n)
    {
      var peers := TreeClosestPeers(table, k, n, buffer.peers, Root, model);
      buffer.peers := peers;
    }

    method TreeAllPeers(tree: BinaryTree, ghost path: Path, found: seq<Peer>) returns (buffer: seq<Peer>)
      requires Linked() && path in at && at[path] == tree
      ensures Has(model, path) && buffer == found + Tries.AllPeers(Sub(model, path))
      decreases KEYBITS - Depth(path)
    {
      assert NodeOk(model, path);
      if tree.leaf {
        buffer := tree.Report(|tree.kbucket|, found);
        return;
      }
      ChildAt(path, true);
      ChildAt(path, false);
      buffer := TreeAllPeers(tree.oneTree, Step(path, true), found);
      buffer := TreeAllPeers(tree.zeroTree, Step(path, false), buffer);
      ghost var s := Sub(model, path);
      Assoc(found, Tries.AllPeers(s.one), Tries.AllPeers(s.zero));
    }

    /** Every stored peer, once: the buffer grows by the entries of the abstract map. */
    method AllPeers(buffer: PeerBuffer)
      requires Valid()
      modifies buffer
      ensures buffer.peers == old(buffer.peers) + Tries.AllPeers(model)
    {
      var peers := TreeAllPeers(table, Root, buffer.peers);
      buffer.peers := peers;
    }
  }
}
