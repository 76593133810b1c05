/** Iterators over the leaves, which find their place again after insertions. */
module BTreeIterator {
  import opened BTree
  import opened BTreeChain
  import opened BTreeEntries
  import opened BTreeMemory
  import opened BTreeSteps
  import opened BTreeStore

  // ---------------------------------------------------------------------------------------------
  // Positions
  // ---------------------------------------------------------------------------------------------

  /** An iterator that was at a key of leaf node when the leaf's version was seqno: the key is in that
      leaf or further right, and exactly where it was if the version is still the same. */
  ghost predicate Pos(mem: LeafMap, ls: seq<Tree>, node: Addr, index: int, key: Key, seqno: nat) {
    exists p, q :: PosAt(mem, ls, p, q, node, index, key, seqno)
  }

  ghost predicate PosAt(mem: LeafMap, ls: seq<Tree>, p: nat, q: nat, node: Addr, index: int, key: Key, seqno: nat) {
    && p <= q < |ls| && ls[p].id == node && node in mem && key in ls[q].keys && seqno <= mem[node].seqno
    && (seqno == mem[node].seqno ==> 0 <= index < |ls[p].keys| && ls[p].keys[index] == key)
  }

  /** A leaf's keys stay in the leaf or go to its new right neighbour; without a change of version
      nothing happens to it. */
  lemma LeafInsKeys(t: Tree, key: Key, v: Val, last: bool, n: Addr, x: Key)
    requires t.Leaf? && |t.keys| == |t.vals| <= M && x in t.keys
    ensures var r := LeafIns(t, key, v, last, n); x in r.tree.keys || (r.split.SplitOff? && x in r.split.right.keys)
  {
    var i :| 0 <= i < |t.keys| && t.keys[i] == x;
    var k := LowerBound(t.keys, key);
    var r := LeafIns(t, key, v, last, n);
    if k < |t.keys| && t.keys[k] == key {
    } else if |t.keys| < M {
      assert r.tree.keys[if i < k then i else i + 1] == x;
    } else if last && k == |t.keys| {
    } else {
      LeafCutKeys(t, k, key, v, n, i);
    }
  }

  lemma LeafCutKeys(t: Tree, k: nat, key: Key, v: Val, n: Addr, i: nat)
    requires t.Leaf? && |t.keys| == |t.vals| == M && k <= M && i < M
    ensures var r := LeafCut(t, k, key, v, n); t.keys[i] in r.tree.keys || (r.split.SplitOff? && t.keys[i] in r.split.right.keys)
  {
    var r := LeafCut(t, k, key, v, n);
    if k < HALF {
      if i < HALF { assert r.tree.keys[if i < k then i else i + 1] == t.keys[i]; } else { assert r.split.right.keys[i - HALF] == t.keys[i]; }
    } else {
      if i < HALF { assert r.tree.keys[i] == t.keys[i]; }
      else { assert r.split.right.keys[if i < k then i - HALF else i - HALF + 1] == t.keys[i]; }
    }
  }

  lemma UnchangedLeaf(t: Tree, key: Key, v: Val, last: bool, n: Addr)
    requires t.Leaf? && |t.keys| == |t.vals| <= M && Ascending(t.keys) && key in t.keys
    ensures LeafIns(t, key, v, last, n) == Outcome(t, Whole, n)
  {
    var i :| 0 <= i < |t.keys| && t.keys[i] == key;
    var k := LowerBound(t.keys, key);
    assert !(k < i) && !(i < k);
  }

  lemma SplicedAt(ls: seq<Tree>, j: nat, pair: seq<Tree>)
    requires j < |ls|
    ensures var ls' := ls[..j] + pair + ls[j + 1..];
            && |ls'| == |ls| + |pair| - 1
            && (forall i | 0 <= i < j :: ls'[i] == ls[i])
            && (forall i | 0 <= i < |pair| :: ls'[j + i] == pair[i])
            && (forall i | j < i < |ls| :: ls'[i + |pair| - 1] == ls[i])
  {
  }

  /** Where the leaf at place p is after the step. */
  function Moved(p: nat, j: nat, size: nat): nat
    requires 0 < size
  {
    if p <= j then p else p + size - 1
  }

  /** The leaf that has key at, after the step. */
  lemma KeyMoved(ls: seq<Tree>, ls': seq<Tree>, key: Key, v: Val, n: Addr, w: Trace, q: nat, at: Key) returns (q': nat)
    requires Grown(ls, ls', w.j, key, w.leaf, LeafPair(w.lr), w.end, true) && q < |ls| && at in ls[q].keys
    requires w.leaf.Leaf? && |w.leaf.keys| == |w.leaf.vals| <= M && w.lr == LeafIns(w.leaf, key, v, w.end, n)
    ensures Moved(q, w.j, |LeafPair(w.lr)|) <= q' < |ls'| && at in ls'[q'].keys
  {
    SplicedAt(ls, w.j, LeafPair(w.lr));
    if q != w.j {
      q' := Moved(q, w.j, |LeafPair(w.lr)|);
    } else {
      LeafInsKeys(w.leaf, key, v, w.end, n, at);
      assert LeafPair(w.lr)[0] == w.lr.tree;
      assert w.lr.split.SplitOff? ==> LeafPair(w.lr)[1] == w.lr.split.right;
      q' := if at in w.lr.tree.keys then w.j else w.j + 1;
    }
  }

  /** A leaf whose version has not changed has not changed. */
  lemma SameVersionSameLeaf(mem: LeafMap, mem': LeafMap, ls: seq<Tree>, ls': seq<Tree>, key: Key, v: Val, n: Addr, w: Trace, p: nat)
    requires ChainStep(mem, mem', ls, ls', key, v, n, w) && Linked(mem, ls) && Chain(ls) && p < |ls|
    ensures var p' := Moved(p, w.j, |LeafPair(w.lr)|);
            && p' < |ls'| && ls'[p'].id == ls[p].id && ls[p].id in mem && ls[p].id in mem'
            && mem[ls[p].id].seqno <= mem'[ls[p].id].seqno && (mem[ls[p].id].seqno == mem'[ls[p].id].seqno ==> ls'[p'] == ls[p])
  {
    SplicedAt(ls, w.j, LeafPair(w.lr));
    assert LinkedAt(mem, ls, p) && LinkedAt(mem, ls, w.j);
    assert LeafStepAt(mem, mem', w.leaf.id, SplitId(w.lr), w.bump, ls[p].id);
    LeafInsShape(w.leaf, key, v, w.end, n);
    assert LeafPair(w.lr)[0] == w.lr.tree;
    assert LeafOk(ls[w.j], 0, LIMIT);
    if !w.bump { UnchangedLeaf(w.leaf, key, v, w.end, n); }
  }

  /** Insertions do not lead an iterator astray. */
  lemma StepKeepsPos(mem: LeafMap, mem': LeafMap, ls: seq<Tree>, ls': seq<Tree>, key: Key, v: Val, n: Addr, w: Trace,
                     node: Addr, index: int, at: Key, seqno: nat)
    requires ChainStep(mem, mem', ls, ls', key, v, n, w) && Linked(mem, ls) && Chain(ls)
    requires Pos(mem, ls, node, index, at, seqno)
    ensures Pos(mem', ls', node, index, at, seqno)
  {
    var p: nat, q: nat :| PosAt(mem, ls, p, q, node, index, at, seqno);
    var q' := KeyMoved(ls, ls', key, v, n, w, q, at);
    SameVersionSameLeaf(mem, mem', ls, ls', key, v, n, w, p);
    assert PosAt(mem', ls', Moved(p, w.j, |LeafPair(w.lr)|), q', node, index, at, seqno);
  }

  // ---------------------------------------------------------------------------------------------
  // Neighbours in the order of keys
  // ---------------------------------------------------------------------------------------------

  /** Everything before place (p, i) is at most key, everything from there on is greater. */
  ghost predicate CutAfter(ls: seq<Tree>, p: nat, i: nat, key: Key) {
    forall m, n | 0 <= m < |ls| && 0 <= n < |ls[m].keys| :: ls[m].keys[n] <= key <==> (m < p || (m == p && n < i))
  }

  /** next is the smallest key of the chain that is greater than key. */
  ghost predicate Successor(ls: seq<Tree>, key: Key, next: Key) {
    key < next && Present(ls, next) && forall x: Key | Present(ls, x) :: x <= key || next <= x
  }

  ghost predicate NoneAbove(ls: seq<Tree>, key: Key) {
    forall x: Key | Present(ls, x) :: x <= key
  }

  lemma CutIsSuccessor(ls: seq<Tree>, p: nat, i: nat, key: Key)
    requires Chain(ls) && CutAfter(ls, p, i, key) && p < |ls| && i < |ls[p].keys|
    ensures Successor(ls, key, ls[p].keys[i])
  {
    var next := ls[p].keys[i];
    forall x: Key | Present(ls, x) ensures x <= key || next <= x {
      var m :| 0 <= m < |ls| && x in ls[m].keys;
      var n :| 0 <= n < |ls[m].keys| && ls[m].keys[n] == x;
      assert LeafOk(ls[p], 0, LIMIT);
      if p < m { assert Before(ls[p], ls[m]); }
    }
  }

  lemma CutAtEnd(ls: seq<Tree>, key: Key)
    requires CutAfter(ls, |ls|, 0, key)
    ensures NoneAbove(ls, key)
  {
    forall x: Key | Present(ls, x) ensures x <= key {
      var m :| 0 <= m < |ls| && x in ls[m].keys;
      var n :| 0 <= n < |ls[m].keys| && ls[m].keys[n] == x;
    }
  }

  /** A place after the last entry of a leaf is the first place of the next one. */
  lemma CutMovesOn(ls: seq<Tree>, p: nat, key: Key)
    requires p < |ls| && CutAfter(ls, p, |ls[p].keys|, key)
    ensures CutAfter(ls, p + 1, 0, key)
  {
  }

  /** Keys left of the leaf that key is in, or of an earlier one, are smaller. */
  lemma LeftIsSmaller(ls: seq<Tree>, p: nat, q: nat, key: Key)
    requires Chain(ls) && p <= q < |ls| && key in ls[q].keys
    ensures forall m, n | 0 <= m < p && 0 <= n < |ls[m].keys| :: ls[m].keys[n] < key
  {
    var i :| 0 <= i < |ls[q].keys| && ls[q].keys[i] == key;
    forall m, n | 0 <= m < p && 0 <= n < |ls[m].keys| ensures ls[m].keys[n] < key { assert Before(ls[m], ls[q]); }
  }

  /** Within the p-th leaf, the entries before place i are at most key and the one there is greater. */
  lemma CutHere(ls: seq<Tree>, p: nat, i: nat, key: Key)
    requires Chain(ls) && p < |ls| && i <= |ls[p].keys|
    requires forall m, n | 0 <= m < p && 0 <= n < |ls[m].keys| :: ls[m].keys[n] <= key
    requires (forall n | 0 <= n < i :: ls[p].keys[n] <= key) && (i < |ls[p].keys| ==> key < ls[p].keys[i])
    requires i == |ls[p].keys| ==> forall m, n | p < m < |ls| && 0 <= n < |ls[m].keys| :: key < ls[m].keys[n]
    ensures CutAfter(ls, p, i, key)
  {
    forall m, n | 0 <= m < |ls| && 0 <= n < |ls[m].keys| ensures ls[m].keys[n] <= key <==> (m < p || (m == p && n < i)) {
      assert LeafOk(ls[p], 0, LIMIT);
      if p < m { assert Before(ls[p], ls[m]); }
    }
  }

  // ---------------------------------------------------------------------------------------------
  // The iterator
  // ---------------------------------------------------------------------------------------------

  /** first is the smallest key of the chain that is at least target. */
  ghost predicate FirstFrom(ls: seq<Tree>, target: Key, first: Key) {
    target <= first && Present(ls, first) && forall x: Key | Present(ls, x) :: x < target || first <= x
  }

  class Iterator {
    const tree: BPlusTree
    var node: Addr
    var index: int
    var key: Key
    var val: Val
    var seqno: nat

    constructor (tree: BPlusTree)
      ensures this.tree == tree && node == 0
    {
      this.tree := tree;
      node, index, key, val, seqno := 0, 0, 0, 0, 0;
    }

    ghost function Chain(): seq<Tree>
      reads this, tree
    {
      Leaves(tree.tree)
    }

    ghost predicate Placed()
      reads this, tree
    {
      node != 0 && Pos(tree.leaves, Chain(), node, index, key, seqno)
    }

    /** The chain of a tree that is not empty is ordered, and its cells hold what it says. */
    lemma ChainFacts()
      requires tree.Valid() && !tree.Empty()
      ensures BTreeChain.Chain(Chain()) && Chain() != [] && Linked(tree.leaves, Chain())
      ensures forall p | 0 <= p < |Chain()| :: CellOf(tree.leaves, Chain()[p])
    {
      LeavesChain(tree.tree, tree.depth, 0, LIMIT);
      RepLeaves(tree.V(), tree.tree);
    }

    /** Take the entry at place (node, index). */
    method Load(ghost p: nat)
      requires tree.Valid() && !tree.Empty() && p < |Chain()| && node == Chain()[p].id && 0 <= index < |Chain()[p].keys|
      modifies this
      ensures node == old(node) && index == old(index) && Placed()
      ensures key == Chain()[p].keys[index] && Holds(Chain(), key, val)
    {
      ChainFacts();
      assert CellOf(tree.leaves, Chain()[p]) && LeafOk(Chain()[p], 0, LIMIT);
      LiveKeys(tree.leaves[node], Chain()[p]);
      key := tree.leaves[node].keys[index];
      val := tree.leaves[node].vals[index];
      seqno := tree.leaves[node].seqno;
      assert PosAt(tree.leaves, Chain(), p, p, node, index, key, seqno);
      assert BTreeEntries.At(Chain()[p], index, key, val);
      assert LeafHolds(Chain()[p], key, val);
    }

    /** Seek: the first entry whose key is at least target. */
    method Seek(target: Key)
      requires tree.Valid()
      modifies this
      ensures node == 0 ==> forall x: Key | Present(Chain(), x) :: x < target
      ensures node != 0 ==> !tree.Empty() && Placed() && FirstFrom(Chain(), target, key) && Holds(Chain(), key, val)
    {
      ghost var j;
      var leaf;
      leaf, j := tree.FindLeaf(target);
      var c := tree.leaves[leaf];
      LiveKeys(c, Chain()[j]);
      var k := 0;
      while k < c.num && target > c.keys[k]
        invariant k <= c.num && forall i | 0 <= i < k :: c.keys[i] < target
      {
        k := k + 1;
      }
      assert LinkedAt(tree.leaves, Chain(), j);
      if !tree.Empty() {
        ChainFacts();
        SeekPlace(Chain(), j, k, target);
      }
      ghost var p := j;
      if k == c.num {
        if !tree.Empty() { NextLeaf(j); }
        node, index := c.right, 0;
        p := j + 1;
      } else {
        index, node := k, leaf;
      }
      if node != 0 { Load(p); }
    }

    /** Next: the entry with the next greater key of the tree as it is now, whatever has been inserted
        since the last call. The result says whether the leaf was unchanged. */
    method Next() returns (same: bool)
      requires tree.Valid() && !tree.Empty() && Placed()
      modifies this
      ensures same == (tree.leaves[old(node)].seqno == old(seqno))
      ensures node == 0 ==> NoneAbove(Chain(), old(key))
      ensures node != 0 ==> Placed() && Successor(Chain(), old(key), key) && Holds(Chain(), key, val)
    {
      ChainFacts();
      ghost var p: nat, q: nat :| PosAt(tree.leaves, Chain(), p, q, node, index, key, seqno);
      same := true;
      if tree.leaves[node].seqno != seqno {
        same := false;
        p := Search(p, q);
        if node == 0 { return; }
      } else {
        SameLeafCut(Chain(), p, index, key);
        index := index + 1;
      }
      Advance(p);
    }

    /** Go on to the next leaf if this one has no more entries, and take the entry there. */
    method Advance(ghost p: nat)
      requires tree.Valid() && !tree.Empty() && p < |Chain()| && node == Chain()[p].id
      requires 0 <= index <= |Chain()[p].keys| && CutAfter(Chain(), p, index, key)
      modifies this
      ensures node == 0 ==> NoneAbove(Chain(), old(key))
      ensures node != 0 ==> Placed() && Successor(Chain(), old(key), key) && Holds(Chain(), key, val)
    {
      ChainFacts();
      assert CellOf(tree.leaves, Chain()[p]);
      ghost var p' := p;
      if index >= tree.leaves[node].num {
        CutMovesOn(Chain(), p, key);
        NextLeaf(p);
        node := tree.leaves[node].right;
        index := 0;
        p' := p + 1;
      }
      if node != 0 {
        CutIsSuccessor(Chain(), p', index, key);
        Load(p');
      } else {
        CutAtEnd(Chain(), key);
      }
    }

    /** The right neighbour of a leaf is the next one of the chain, and not empty. */
    lemma NextLeaf(p: nat)
      requires tree.Valid() && !tree.Empty() && p < |Chain()|
      ensures Chain()[p].id in tree.leaves
      ensures var right := tree.leaves[Chain()[p].id].right;
              if p + 1 < |Chain()| then right == Chain()[p + 1].id && right != 0 && Chain()[p + 1].keys != [] else right == 0
    {
      ChainFacts();
      assert LinkedAt(tree.leaves, Chain(), p);
      if p + 1 < |Chain()| { assert LinkedAt(tree.leaves, Chain(), p + 1) && LeafOk(Chain()[p + 1], 0, LIMIT); }
    }

    /** The first entry of a leaf whose key is greater. */
    method SlotAfter(ghost l: Tree) returns (k: nat)
      requires node in tree.leaves && l.Leaf? && LeafIs(tree.leaves[node], l.keys, l.vals)
      ensures k <= |l.keys| == tree.leaves[node].num && (forall i | 0 <= i < k :: l.keys[i] <= key) && (k < |l.keys| ==> key < l.keys[k])
    {
      var c := tree.leaves[node];
      LiveKeys(c, l);
      k := 0;
      while k < c.num && key >= c.keys[k]
        invariant k <= c.num && forall i | 0 <= i < k :: c.keys[i] <= key
      {
        k := k + 1;
      }
    }

    /** Look for the first key that is greater, from the leaf where the iterator was to the right. */
    method Search(ghost p: nat, ghost q: nat) returns (ghost p': nat)
      requires tree.Valid() && !tree.Empty() && p <= q < |Chain()| && Chain()[p].id == node && key in Chain()[q].keys && node != 0
      modifies this
      ensures key == old(key)
      ensures node == 0 ==> NoneAbove(Chain(), key)
      ensures node != 0 ==> p' < |Chain()| && node == Chain()[p'].id && 0 <= index < |Chain()[p'].keys| && CutAfter(Chain(), p', index, key)
    {
      ChainFacts();
      LeftIsSmaller(Chain(), p, q, key);
      p' := p;
      while node != 0
        invariant key == old(key) && p' <= |Chain()|
        invariant if p' == |Chain()| then node == 0 else node == Chain()[p'].id && node != 0
        invariant forall m, n | 0 <= m < p' && 0 <= n < |Chain()[m].keys| :: Chain()[m].keys[n] <= key
        decreases |Chain()| - p'
      {
        assert CellOf(tree.leaves, Chain()[p']);
        var k := SlotAfter(Chain()[p']);
        if k == tree.leaves[node].num {
          NextLeaf(p');
          node := tree.leaves[node].right;
          p' := p' + 1;
        } else {
          index := k;
          CutHere(Chain(), p', k, key);
          return;
        }
      }
      assert CutAfter(Chain(), |Chain()|, 0, key);
      CutAtEnd(Chain(), key);
    }
  }

  ghost predicate CellOf(mem: LeafMap, l: Tree) {
    l.Leaf? && l.id in mem && LeafIs(mem[l.id], l.keys, l.vals)
  }

  lemma {:induction false} RepLeaves(mem: Mem, t: Tree)
    requires Rep(mem, t)
    ensures forall p | 0 <= p < |Leaves(t)| :: CellOf(mem.leaves, Leaves(t)[p])
    decreases t, if t.Node? then |t.kids| + 2 else 0
  {
    if t.Node? { RepLeavesFrom(mem, t, 0); }
  }

  lemma {:induction false} RepLeavesFrom(mem: Mem, t: Tree, i: nat)
    requires Rep(mem, t) && t.Node? && i <= |t.kids|
    ensures forall p | 0 <= p < |LeavesFrom(t, i)| :: CellOf(mem.leaves, LeavesFrom(t, i)[p])
    decreases t, 1 + |t.kids| - i
  {
    if i < |t.kids| {
      RepLeaves(mem, t.kids[i]);
      RepLeavesFrom(mem, t, i + 1);
    }
  }

  /** The entry after the one at place index. */
  lemma SameLeafCut(ls: seq<Tree>, p: nat, index: int, key: Key)
    requires Chain(ls) && p < |ls| && 0 <= index < |ls[p].keys| && ls[p].keys[index] == key
    ensures CutAfter(ls, p, index + 1, key)
  {
    assert LeafOk(ls[p], 0, LIMIT);
    LeftIsSmaller(ls, p, p, key);
    forall m, n | p < m < |ls| && 0 <= n < |ls[m].keys| ensures key < ls[m].keys[n] { assert Before(ls[p], ls[m]); }
    CutHere(ls, p, index + 1, key);
  }

  /** The keys that are at least target are those from place (j, k) on. */
  lemma SeekCut(ls: seq<Tree>, j: nat, k: nat, target: Key, x: Key)
    requires Chain(ls) && Routed(ls, j, target) && k <= |ls[j].keys| && Present(ls, x) && target <= x
    requires forall i | 0 <= i < k :: ls[j].keys[i] < target
    ensures if k < |ls[j].keys| then ls[j].keys[k] <= x else j + 1 < |ls| && ls[j + 1].keys != [] && ls[j + 1].keys[0] <= x
  {
    var m :| 0 <= m < |ls| && x in ls[m].keys;
    var n :| 0 <= n < |ls[m].keys| && ls[m].keys[n] == x;
    assert LeafOk(ls[j], 0, LIMIT);
    if j < m {
      assert Before(ls[j], ls[m]) && LeafOk(ls[j + 1], 0, LIMIT) && LeafOk(ls[m], 0, LIMIT);
      if j + 1 < m { assert Before(ls[j + 1], ls[m]); }
    }
  }

  /** What Seek finds in the leaf that target leads to, or at the start of the next one. */
  lemma SeekPlace(ls: seq<Tree>, j: nat, k: nat, target: Key)
    requires Chain(ls) && Routed(ls, j, target) && k <= |ls[j].keys|
    requires (forall i | 0 <= i < k :: ls[j].keys[i] < target) && (k < |ls[j].keys| ==> target <= ls[j].keys[k])
    ensures k < |ls[j].keys| ==> FirstFrom(ls, target, ls[j].keys[k])
    ensures k == |ls[j].keys| && j + 1 < |ls| ==> ls[j + 1].keys != [] && FirstFrom(ls, target, ls[j + 1].keys[0])
    ensures k == |ls[j].keys| && j + 1 == |ls| ==> forall x: Key | Present(ls, x) :: x < target
  {
    forall x: Key | Present(ls, x) && target <= x
      ensures if k < |ls[j].keys| then ls[j].keys[k] <= x else j + 1 < |ls| && ls[j + 1].keys != [] && ls[j + 1].keys[0] <= x
    {
      SeekCut(ls, j, k, target, x);
    }
    if j + 1 < |ls| { assert LeafOk(ls[j + 1], 0, LIMIT) && ls[j + 1].keys[0] in ls[j + 1].keys; }
    if k < |ls[j].keys| { assert ls[j].keys[k] in ls[j].keys; }
  }
}
