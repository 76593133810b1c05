/** The B+ tree itself: nodes in memory, searched by loops, shifted, cut and linked in place. */
module BTreeStore {
  import opened BTree
  import opened BTreeChain
  import opened BTreeEntries
  import opened BTreeMemory
  import opened BTreeSteps

  // ---------------------------------------------------------------------------------------------
  // Searching a node
  // ---------------------------------------------------------------------------------------------

  lemma {:induction false} LowerBoundIs(keys: seq<Key>, key: Key, k: nat)
    requires k <= |keys| && (forall j | 0 <= j < k :: keys[j] < key) && (k < |keys| ==> key <= keys[k])
    ensures LowerBound(keys, key) == k
  {
  }

  lemma {:induction false} UpperBoundIs(keys: seq<Key>, key: Key, k: nat)
    requires k <= |keys| && (forall j | 0 <= j < k :: keys[j] <= key) && (k < |keys| ==> key < keys[k])
    ensures UpperBound(keys, key) == k
  {
  }

  /** What the tree leads to after an insertion, seen from the chain of its leaves. */
  lemma StepAdds(mem: LeafMap, mem': LeafMap, ls: seq<Tree>, ls': seq<Tree>, key: Key, v: Val, n: Addr, w: Trace)
    requires ChainStep(mem, mem', ls, ls', key, v, n, w) && Chain(ls)
    ensures forall x, y :: Holds(ls', x, y) <==> Holds(ls, x, y) || (x == key && y == v && !Present(ls, key))
    ensures Holds(ls', key, w.val)
  {
    assert LeafOk(ls[w.j], 0, LIMIT);
    forall x, y ensures Holds(ls', x, y) <==> Holds(ls, x, y) || (x == key && y == v && !Present(ls, key)) {
      GrownHolds(ls, ls', w.j, key, v, w.lr, w.end, true, n, x, y);
    }
    PresentInLeaf(ls, w.j, key);
    if key in w.leaf.keys { assert LeafHolds(ls[w.j], key, w.val); }
  }

  lemma FirstAdds(mem: LeafMap, mem': LeafMap, t: Tree, ls': seq<Tree>, key: Key, v: Val, n: Addr, w: Trace)
    requires t.Leaf? && t.keys == [] && t.vals == [] && ls' == [Leaf(t.id, [key], [v])] && w.val == v
    ensures forall x, y :: Holds(ls', x, y) <==> Holds([t], x, y) || (x == key && y == v && !Present([t], key))
    ensures Holds(ls', key, w.val)
  {
    forall x, y ensures Holds(ls', x, y) <==> Holds([t], x, y) || (x == key && y == v && !Present([t], key)) {
      OneHolds(t.id, key, v, x, y);
      assert ls'[0] == Leaf(t.id, [key], [v]);
    }
  }

  class BPlusTree {
    var leaves: map<Addr, LeafCell>
    var inners: map<Addr, InnerCell>
    var root: Addr
    var depth: nat
    var next: Addr

    /** The tree that the cells stand for. */
    ghost var tree: Tree

    ghost predicate Empty()
      reads this
    {
      depth == 0 && tree == Leaf(root, [], [])
    }

    ghost predicate Valid()
      reads this
    {
      && Room() && tree.id == root && Rep(V(), tree) && Apart(tree) && Below(tree, next) && Linked(leaves, Leaves(tree))
      && (Empty() || WF(tree, depth, 0, LIMIT))
    }

    constructor ()
      ensures Valid() && Empty()
    {
      root, depth, next := 1, 0, 2;
      leaves := map[1 := LeafCell(0, seq(M, _ => 0), seq(M, _ => 0), 0, 0, 0)];
      inners := map[];
      tree := Leaf(1, [], []);
      new;
      assert LinkedAt(leaves, Leaves(tree), 0);
    }

    /** Insert_rtm: the record of the key, which is v if the key is new. */
    method Insert(key: Key, v: Val) returns (val: Val, ghost w: Trace)
      requires Valid()
      modifies this
      ensures Valid() && !Empty()
      ensures ChainStep(old(leaves), leaves, old(Leaves(tree)), Leaves(tree), key, v, old(next), w) && val == w.val
      ensures forall x, y :: Holds(Leaves(tree), x, y) <==>
                             old(Holds(Leaves(tree), x, y)) || (x == key && y == v && old(!Present(Leaves(tree), key)))
      ensures Holds(Leaves(tree), key, val)
    {
      if depth == 0 && leaves[root].num == 0 {
        val, w := InsertFirst(key, v);
        FirstAdds(old(leaves), leaves, old(tree), Leaves(tree), key, v, old(next), w);
      } else {
        val, w := InsertMore(key, v);
        LeavesChain(old(tree), old(depth), 0, LIMIT);
        StepAdds(old(leaves), leaves, old(Leaves(tree)), Leaves(tree), key, v, old(next), w);
      }
    }

    method InsertFirst(key: Key, v: Val) returns (val: Val, ghost w: Trace)
      requires Valid() && depth == 0 && leaves[root].num == 0
      modifies this
      ensures Valid() && !Empty() && old(tree == Leaf(root, [], [])) && Leaves(tree) == [Leaf(root, [key], [v])] && w.val == val == v
      ensures ChainStep(old(leaves), leaves, old(Leaves(tree)), Leaves(tree), key, v, old(next), w)
    {
      assert LinkedAt(leaves, Leaves(tree), 0);
      ghost var sib, r, bump;
      sib, val, r, bump := LeafInsert(key, root, v, tree);
      w := Trace(r, 0, tree, r, true, bump, val);
      tree := r.tree;
      assert InsertAt([], 0, key) == [key] && InsertAt([], 0, v) == [v];
      StepKeepsLinks(old(leaves), leaves, old(Leaves(tree)), Leaves(tree), key, v, old(next), w);
    }

    method InsertMore(key: Key, v: Val) returns (val: Val, ghost w: Trace)
      requires Valid() && !(depth == 0 && leaves[root].num == 0)
      modifies this
      ensures old(WF(tree, depth, 0, LIMIT)) && Valid() && !Empty() && val == w.val
      ensures ChainStep(old(leaves), leaves, old(Leaves(tree)), Leaves(tree), key, v, old(next), w)
    {
      LinkedRightEnds(leaves, Leaves(tree));
      var sib;
      sib, val, w := InsertBelow(key, root, depth, v, tree, true, 0, LIMIT);
      StepKeepsLinks(old(leaves), leaves, old(Leaves(tree)), OutcomeLeaves(w.r), key, v, old(next), w);
      OutcomeBelow(tree, w.r, old(next));
      if sib == 0 {
        assert OutcomeLeaves(w.r) == Leaves(w.r.tree);
        tree := w.r.tree;
      } else {
        GrowRoot(sib, w.r, old(next));
      }
    }

    /** The root has been split: put a new one above the two parts. */
    method GrowRoot(sib: Addr, ghost r: Outcome, ghost n: Addr)
      requires Room() && tree.id == root && r.split.SplitOff? && r.split.right.id == sib && next == r.next && 0 < n
      requires FromOld(tree, r, n) && Below(tree, n) && Rep(V(), r.tree) && Rep(V(), r.split.right)
      requires OutcomeOk(r, depth, true, 0, LIMIT) && UpIs(V(), depth, sib, r.split.up)
      modifies this
      ensures leaves == old(leaves) && depth == old(depth) + 1 && Leaves(tree) == OutcomeLeaves(r)
      ensures Room() && tree.id == root && Rep(V(), tree) && Apart(tree) && Below(tree, next) && WF(tree, depth, 0, LIMIT)
    {
      var up := if depth == 0 then leaves[sib].keys[0] else inners[sib].keys[M - 1];
      ghost var mem := V();
      var id := NewInner();
      var c := inners[id];
      inners := inners[id := c.(num := 1, keys := c.keys[0 := up], kids := c.kids[0 := root][1 := sib])];
      assert inners[id].keys[..1] == [up] && inners[id].kids[..2] == [root, sib];
      RootCells(mem, V(), tree, r, n, id);
      RootWF(r, depth, id, true);
      RootLeaves(r, id);
      root, depth, tree := id, depth + 1, Node(id, [r.split.up], [r.tree, r.split.right]);
    }

    /** The leaf that has the key, if any leaf has. */
    method FindLeaf(key: Key) returns (leaf: Addr, ghost j: nat)
      requires Valid()
      ensures Routed(Leaves(tree), j, key) && leaf == Leaves(tree)[j].id
      ensures leaf in leaves && Leaves(tree)[j].Leaf? && LeafIs(leaves[leaf], Leaves(tree)[j].keys, Leaves(tree)[j].vals)
    {
      leaf := root;
      if depth == 0 && leaves[root].num == 0 { return leaf, 0; }
      var d := depth;
      ghost var t, a, b, lo: nat, hi := tree, [], [], 0, LIMIT;
      assert Leaves(tree) == [] + Leaves(tree) + [];
      while d != 0
        invariant Spans(Leaves(tree), a, t, b, d, key, lo, hi) && Rep(V(), t) && t.id == leaf
      {
        ghost var k := UpperBound(t.keys, key);
        a, b := SpansKid(Leaves(tree), a, t, b, d - 1, key, lo, hi);
        var slot := ChildSlot(leaf, key, t);
        assert inners[leaf].kids[..inners[leaf].num + 1][k] == inners[leaf].kids[k];
        leaf := inners[leaf].kids[slot];
        lo, hi := Low(t.keys, lo, k), High(t.keys, hi, k);
        t, d := t.kids[k], d - 1;
      }
      SpansLeaf(Leaves(tree), a, t, b, key, lo, hi);
      j := |a|;
    }

    /** The record that the key leads to. */
    method Get(key: Key) returns (found: bool, val: Val)
      requires Valid()
      ensures found == Present(Leaves(tree), key)
      ensures found ==> Holds(Leaves(tree), key, val)
    {
      ghost var j;
      var leaf;
      leaf, j := FindLeaf(key);
      ghost var t := Leaves(tree)[j];
      PresentInLeaf(Leaves(tree), j, key);
      LiveKeys(leaves[leaf], t);
      found, val := false, 0;
      if leaves[leaf].num == 0 { return; }
      var k := LeafSlot(leaf, key, t);
      AscendingLeaf(j);
      if k == leaves[leaf].num { return; }
      if leaves[leaf].keys[k] == key {
        found, val := true, leaves[leaf].vals[k];
        assert BTreeEntries.At(t, k, key, val);
        assert LeafHolds(t, key, val);
      }
    }

    lemma AscendingLeaf(j: nat)
      requires Valid() && j < |Leaves(tree)|
      ensures Ascending(Leaves(tree)[j].keys)
    {
      if !Empty() {
        LeavesChain(tree, depth, 0, LIMIT);
        assert LeafOk(Leaves(tree)[j], 0, LIMIT);
      }
    }

    ghost predicate Room()
      reads this`leaves, this`inners, this`next
    {
      0 < next && (forall x | x in leaves :: 0 < x < next) && (forall x | x in inners :: 0 < x < next)
    }

    /** Where a key is, or would be, in a leaf. */
    method LeafSlot(leaf: Addr, key: Key, ghost t: Tree) returns (k: nat)
      requires t.Leaf? && leaf in leaves && LeafIs(leaves[leaf], t.keys, t.vals)
      ensures k == LowerBound(t.keys, key)
    {
      var c := leaves[leaf];
      k := 0;
      while k < c.num && c.keys[k] < key
        invariant k <= c.num && forall j | 0 <= j < k :: c.keys[j] < key
      {
        k := k + 1;
      }
      assert forall j | 0 <= j < c.num :: t.keys[j] == c.keys[..c.num][j] == c.keys[j];
      LowerBoundIs(t.keys, key, k);
    }

    /** Which child of an inner node a key leads to. */
    method ChildSlot(inner: Addr, key: Key, ghost t: Tree) returns (k: nat)
      requires t.Node? && inner in inners && InnerIs(inners[inner], t.keys, IdsOf(t.kids))
      ensures k == UpperBound(t.keys, key)
    {
      var c := inners[inner];
      k := 0;
      while k < c.num && key >= c.keys[k]
        invariant k <= c.num && forall j | 0 <= j < k :: c.keys[j] <= key
      {
        k := k + 1;
      }
      assert forall j | 0 <= j < c.num :: t.keys[j] == c.keys[..c.num][j] == c.keys[j];
      UpperBoundIs(t.keys, key, k);
    }

    /** Shift the entries from k on up by one and put the new entry in. */
    method AddToLeaf(to: Addr, k: nat, key: Key, v: Val, ghost keys: seq<Key>, ghost vals: seq<Val>)
      requires to in leaves && LeafIs(leaves[to], keys, vals) && |keys| < M && k <= |keys|
      modifies this`leaves
      ensures leaves.Keys == old(leaves.Keys) && leaves == old(leaves)[to := leaves[to]]
      ensures LeafIs(leaves[to], InsertAt(keys, k, key), InsertAt(vals, k, v))
      ensures leaves[to].left == old(leaves)[to].left && leaves[to].right == old(leaves)[to].right && leaves[to].seqno == old(leaves)[to].seqno
    {
      var c := leaves[to];
      var was := c;
      var j := c.num;
      while j > k
        invariant k <= j <= was.num && c == was.(keys := c.keys, vals := c.vals) && |c.keys| == M == |c.vals|
        invariant forall i | 0 <= i < j :: c.keys[i] == was.keys[i] && c.vals[i] == was.vals[i]
        invariant forall i | j < i <= was.num :: c.keys[i] == was.keys[i - 1] && c.vals[i] == was.vals[i - 1]
      {
        c := c.(keys := c.keys[j := c.keys[j - 1]], vals := c.vals[j := c.vals[j - 1]]);
        j := j - 1;
      }
      c := c.(num := c.num + 1, keys := c.keys[k := key], vals := c.vals[k := v]);
      leaves := leaves[to := c];
      ShiftedIs(was.keys, c.keys, keys, k, key);
      ShiftedIs(was.vals, c.vals, vals, k, v);
    }

    /** Move the upper entries of a full leaf to a new one. */
    method CutLeaf(leaf: Addr, sib: Addr, ghost keys: seq<Key>, ghost vals: seq<Val>)
      requires leaf in leaves && LeafIs(leaves[leaf], keys, vals) && |keys| == M && sib in leaves && sib != leaf
      requires |leaves[sib].keys| == M == |leaves[sib].vals|
      modifies this`leaves
      ensures leaves.Keys == old(leaves.Keys) && leaves == old(leaves)[leaf := leaves[leaf]][sib := leaves[sib]]
      ensures LeafIs(leaves[leaf], keys[..HALF], vals[..HALF]) && LeafIs(leaves[sib], keys[HALF..], vals[HALF..])
      ensures leaves[leaf] == old(leaves)[leaf].(num := HALF)
      ensures leaves[sib] == old(leaves)[sib].(num := M - HALF, keys := leaves[sib].keys, vals := leaves[sib].vals)
    {
      var c, s := leaves[leaf], leaves[sib];
      s := s.(num := c.num - HALF);
      for j := 0 to s.num
        invariant s == leaves[sib].(num := M - HALF, keys := s.keys, vals := s.vals) && |s.keys| == M == |s.vals|
        invariant forall i | 0 <= i < j :: s.keys[i] == c.keys[HALF + i] && s.vals[i] == c.vals[HALF + i]
      {
        s := s.(keys := s.keys[j := c.keys[HALF + j]], vals := s.vals[j := c.vals[HALF + j]]);
      }
      assert c.keys[..M] == c.keys && c.vals[..M] == c.vals;
      leaves := leaves[leaf := c.(num := HALF)][sib := s];
    }

    /** An empty leaf at a new address. */
    method NewLeaf() returns (sib: Addr)
      requires Room()
      modifies this`leaves, this`next
      ensures Room() && sib == old(next) && next == sib + 1 && sib !in old(leaves) && sib != 0
      ensures leaves.Keys == old(leaves.Keys) + {sib} && leaves == old(leaves)[sib := leaves[sib]]
      ensures LeafIs(leaves[sib], [], [])
    {
      sib := next;
      next := next + 1;
      leaves := leaves[sib := LeafCell(0, seq(M, _ => 0), seq(M, _ => 0), 0, 0, 0)];
    }

    /** Give a full leaf a new right neighbour: empty at the far right end, with the upper half of the
        entries elsewhere. The entry for position k is to go to position j of leaf to. */
    method SplitLeaf(leaf: Addr, k: nat, ghost t: Tree) returns (sib: Addr, to: Addr, j: nat)
      requires t.Leaf? && leaf in leaves && LeafIs(leaves[leaf], t.keys, t.vals) && |t.keys| == M && k <= M
      requires Room() && leaves[leaf].right != leaf && (leaves[leaf].right != 0 ==> leaves[leaf].right in leaves)
      modifies this`leaves, this`next
      ensures Room() && sib == old(next) && next == sib + 1 && leaves.Keys == old(leaves.Keys) + {sib}
      ensures forall x | x in old(leaves) && x != leaf :: SameEntries(old(leaves)[x], leaves[x])
      ensures LeafStep(old(leaves), leaves, leaf, sib, false)
      ensures if old(leaves)[leaf].right == 0 && k == M then
                to == sib && j == 0 && LeafIs(leaves[leaf], t.keys, t.vals) && LeafIs(leaves[sib], [], [])
              else
                && LeafIs(leaves[leaf], t.keys[..HALF], t.vals[..HALF]) && LeafIs(leaves[sib], t.keys[HALF..], t.vals[HALF..])
                && (if k >= HALF then to == sib && j == k - HALF else to == leaf && j == k)
    {
      sib := NewLeaf();
      to, j := leaf, k;
      var right := leaves[leaf].right;
      if right == 0 && k == M {
        to, j := sib, 0;
      } else {
        CutLeaf(leaf, sib, t.keys, t.vals);
        if k >= HALF { to, j := sib, k - HALF; }
      }
      ghost var mid := leaves;
      LinkAfter(leaf, sib);
      AfterLinking(old(leaves), mid, leaves, leaf, sib);
    }

    /** Put leaf sib between leaf and its right neighbour. */
    method LinkAfter(leaf: Addr, sib: Addr)
      requires leaf in leaves && sib in leaves && leaf != sib && leaves[leaf].right != leaf && leaves[leaf].right != sib
      requires leaves[leaf].right != 0 ==> leaves[leaf].right in leaves
      modifies this`leaves
      ensures leaves.Keys == old(leaves.Keys) && forall x | x in leaves :: SameEntries(old(leaves)[x], leaves[x])
      ensures leaves[leaf] == old(leaves)[leaf].(right := sib)
      ensures leaves[sib] == old(leaves)[sib].(left := leaf, right := old(leaves)[leaf].right, seqno := 0)
      ensures forall x | x in leaves && x != leaf && x != sib ::
                leaves[x] == if x == old(leaves)[leaf].right && x != 0 then old(leaves)[x].(left := sib) else old(leaves)[x]
    {
      var right := leaves[leaf].right;
      if right != 0 { leaves := leaves[right := leaves[right].(left := sib)]; }
      leaves := leaves[sib := leaves[sib].(right := right)];
      leaves := leaves[sib := leaves[sib].(left := leaf)];
      leaves := leaves[leaf := leaves[leaf].(right := sib)];
      leaves := leaves[sib := leaves[sib].(seqno := 0)];
    }

    /** Put the entry into a full leaf, which is split for it. */
    method AddToFull(leaf: Addr, k: nat, key: Key, v: Val, ghost t: Tree, ghost r: Outcome) returns (sib: Addr)
      requires t.Leaf? && leaf in leaves && LeafIs(leaves[leaf], t.keys, t.vals) && |t.keys| == M && k <= M
      requires Room() && leaves[leaf].right != leaf && (leaves[leaf].right != 0 ==> leaves[leaf].right in leaves)
      requires r == if leaves[leaf].right == 0 && k == M then Outcome(t, SplitOff(key, Leaf(next, [key], [v])), next + 1)
                    else LeafCut(t, k, key, v, next)
      modifies this`leaves, this`next
      ensures Room() && sib == old(next) && next == sib + 1 && leaves.Keys == old(leaves.Keys) + {sib}
      ensures LeafIs(leaves[leaf], r.tree.keys, r.tree.vals) && LeafIs(leaves[sib], r.split.right.keys, r.split.right.vals)
      ensures forall x | x in old(leaves) && x != leaf :: SameEntries(old(leaves)[x], leaves[x])
      ensures LeafStep(old(leaves), leaves, leaf, sib, false)
    {
      ghost var end := leaves[leaf].right == 0 && k == M;
      var to, j;
      sib, to, j := SplitLeaf(leaf, k, t);
      ghost var mid := leaves;
      ghost var keys := if end then [] else if to == leaf then t.keys[..HALF] else t.keys[HALF..];
      ghost var vals := if end then [] else if to == leaf then t.vals[..HALF] else t.vals[HALF..];
      assert LeafIs(leaves[to], keys, vals);
      AddToLeaf(to, j, key, v, keys, vals);
      FullParts(t, k, key, v, r, end, sib, to == leaf, j, keys, vals);
      SameLinks(old(leaves), mid, leaves, leaf, sib);
    }

    /** Put a new entry into a leaf at position k; sib is 0 or the new right neighbour. */
    method AddNew(leaf: Addr, k: nat, key: Key, v: Val, ghost t: Tree, ghost r: Outcome) returns (sib: Addr)
      requires t.Leaf? && leaf in leaves && LeafIs(leaves[leaf], t.keys, t.vals)
      requires Room() && leaves[leaf].right != leaf && (leaves[leaf].right != 0 ==> leaves[leaf].right in leaves)
      requires k == LowerBound(t.keys, key) && !(k < |t.keys| && t.keys[k] == key)
      requires r == LeafIns(t, key, v, leaves[leaf].right == 0, next)
      modifies this`leaves, this`next
      ensures Room() && next == r.next && sib == (if r.split.Whole? then 0 else old(next)) && (r.split.SplitOff? ==> r.split.right.id == sib)
      ensures leaves.Keys == old(leaves.Keys) + (if sib == 0 then {} else {sib})
      ensures LeafIs(leaves[leaf], r.tree.keys, r.tree.vals)
      ensures r.split.SplitOff? ==> LeafIs(leaves[sib], r.split.right.keys, r.split.right.vals)
      ensures forall x | x in old(leaves) && x != leaf :: SameEntries(old(leaves)[x], leaves[x])
      ensures LeafStep(old(leaves), leaves, leaf, sib, true)
    {
      sib := 0;
      if leaves[leaf].num == M {
        sib := AddToFull(leaf, k, key, v, t, r);
      } else {
        AddToLeaf(leaf, k, key, v, t.keys, t.vals);
        assert LeafStep(old(leaves), leaves, leaf, sib, false);
      }
      ghost var mid := leaves;
      leaves := leaves[leaf := leaves[leaf].(seqno := leaves[leaf].seqno + 1)];
      BumpStep(old(leaves), mid, leaves, leaf, sib);
    }

    /** Insert the key into a leaf, or find it there. */
    method LeafInsert(key: Key, leaf: Addr, v: Val, ghost t: Tree) returns (sib: Addr, val: Val, ghost r: Outcome, ghost bump: bool)
      requires t.Leaf? && leaf in leaves && LeafIs(leaves[leaf], t.keys, t.vals) && Ascending(t.keys)
      requires Room() && leaves[leaf].right != leaf && (leaves[leaf].right != 0 ==> leaves[leaf].right in leaves)
      modifies this`leaves, this`next
      ensures Room() && r == LeafIns(t, key, v, old(leaves)[leaf].right == 0, old(next)) && next == r.next
      ensures sib == (if r.split.Whole? then 0 else old(next)) && (r.split.SplitOff? ==> r.split.right.id == sib)
      ensures leaves.Keys == old(leaves.Keys) + (if sib == 0 then {} else {sib})
      ensures LeafIs(leaves[leaf], r.tree.keys, r.tree.vals)
      ensures r.split.SplitOff? ==> LeafIs(leaves[sib], r.split.right.keys, r.split.right.vals)
      ensures forall x | x in old(leaves) && x != leaf :: SameEntries(old(leaves)[x], leaves[x])
      ensures bump == (key !in t.keys) && LeafStep(old(leaves), leaves, leaf, sib, bump)
      ensures if key in t.keys then LeafHolds(t, key, val) else val == v
    {
      var k := LeafSlot(leaf, key, t);
      LiveKeys(leaves[leaf], t);
      r := LeafIns(t, key, v, leaves[leaf].right == 0, next);
      if k < leaves[leaf].num && leaves[leaf].keys[k] == key {
        sib, val, bump := 0, leaves[leaf].vals[k], false;
        assert BTreeEntries.At(t, k, key, val);
      } else {
        NotInLeaf(t.keys, k, key);
        val, bump := v, true;
        sib := AddNew(leaf, k, key, v, t, r);
      }
    }

    /** Shift the keys from k on, and the children right of the k-th, up by one. */
    method AddToInner(to: Addr, k: nat, up: Key, kid: Addr, ghost keys: seq<Key>, ghost ids: seq<Addr>)
      requires to in inners && InnerIs(inners[to], keys, ids) && |keys| < M && k <= |keys|
      modifies this`inners
      ensures inners.Keys == old(inners.Keys) && inners == old(inners)[to := inners[to]]
      ensures InnerIs(inners[to], InsertAt(keys, k, up), InsertAt(ids, k + 1, kid))
      ensures |keys| + 1 < M ==> inners[to].keys[M - 1] == old(inners)[to].keys[M - 1]
    {
      var c := inners[to];
      var was := c;
      var i := c.num;
      while i > k
        invariant k <= i <= was.num && c == was.(keys := c.keys, kids := c.kids) && |c.keys| == M && |c.kids| == M + 1
        invariant forall j | 0 <= j < i :: c.keys[j] == was.keys[j]
        invariant forall j | i < j <= was.num :: c.keys[j] == was.keys[j - 1]
        invariant forall j | 0 <= j <= i :: c.kids[j] == was.kids[j]
        invariant forall j | i + 1 < j <= was.num + 1 :: c.kids[j] == was.kids[j - 1]
        invariant was.num + 1 < M ==> c.keys[M - 1] == was.keys[M - 1]
      {
        c := c.(keys := c.keys[i := c.keys[i - 1]], kids := c.kids[i + 1 := c.kids[i]]);
        i := i - 1;
      }
      c := c.(num := c.num + 1, keys := c.keys[k := up], kids := c.kids[k + 1 := kid]);
      inners := inners[to := c];
      ShiftedIs(was.keys, c.keys, keys, k, up);
      ShiftedIs(was.kids, c.kids, ids, k + 1, kid);
    }

    /** Move the upper keys and children of a full node to a new one, leaving the middle key out. */
    method CutInner(inner: Addr, sib: Addr, ghost keys: seq<Key>, ghost ids: seq<Addr>)
      requires inner in inners && InnerIs(inners[inner], keys, ids) && |keys| == M && sib in inners && sib != inner
      requires |inners[sib].keys| == M && |inners[sib].kids| == M + 1
      modifies this`inners
      ensures inners.Keys == old(inners.Keys) && inners == old(inners)[inner := inners[inner]][sib := inners[sib]]
      ensures InnerIs(inners[inner], keys[..HALF - 1], ids[..HALF]) && InnerIs(inners[sib], keys[HALF..], ids[HALF..])
    {
      var c, s := inners[inner], inners[sib];
      s := s.(num := c.num - HALF);
      for i := 0 to s.num
        invariant s.num == M - HALF && |s.keys| == M && |s.kids| == M + 1
        invariant forall j | 0 <= j < i :: s.keys[j] == c.keys[HALF + j] && s.kids[j] == c.kids[HALF + j]
      {
        s := s.(keys := s.keys[i := c.keys[HALF + i]], kids := s.kids[i := c.kids[HALF + i]]);
      }
      s := s.(kids := s.kids[s.num := c.kids[c.num]]);
      assert c.keys[..M] == c.keys && c.kids[..M + 1] == c.kids;
      inners := inners[inner := c.(num := HALF - 1)][sib := s];
    }

    /** The empty inner node at a new address. */
    method NewInner() returns (ns: Addr)
      requires Room()
      modifies this`inners, this`next
      ensures Room() && ns == old(next) && next == ns + 1 && ns !in old(inners)
      ensures inners == old(inners)[ns := InnerCell(0, seq(M, _ => 0), seq(M + 1, _ => 0))]
    {
      ns := next;
      next := next + 1;
      inners := inners[ns := InnerCell(0, seq(M, _ => 0), seq(M + 1, _ => 0))];
    }

    /** Cut a full node in two, and leave the middle key in the last key slot of the new one. */
    method CutAtMiddle(inner: Addr, ns: Addr, ghost keys: seq<Key>, ghost ids: seq<Addr>) returns (mid: Key)
      requires inner in inners && InnerIs(inners[inner], keys, ids) && |keys| == M && ns in inners && ns != inner
      requires |inners[ns].keys| == M && |inners[ns].kids| == M + 1
      modifies this`inners
      ensures inners.Keys == old(inners.Keys) && inners == old(inners)[inner := inners[inner]][ns := inners[ns]]
      ensures InnerIs(inners[inner], keys[..HALF - 1], ids[..HALF]) && InnerIs(inners[ns], keys[HALF..], ids[HALF..])
      ensures mid == keys[HALF - 1] == inners[ns].keys[M - 1]
    {
      assert inners[inner].keys[..M] == keys;
      mid := inners[inner].keys[HALF - 1];
      CutInner(inner, ns, keys, ids);
      StaleSlot(inners[ns], keys[HALF..], ids[HALF..], mid);
      inners := inners[ns := inners[ns].(keys := inners[ns].keys[M - 1 := mid])];
    }

    /** A full node is cut at its middle key, and the new child goes to the half that cmp belongs to. The
        middle key is left for the caller in the last key slot of the new node. */
    method AdoptHalves(inner: Addr, k: nat, up: Key, kid: Addr, cmp: Key, ghost keys: seq<Key>, ghost ids: seq<Addr>) returns (ns: Addr)
      requires Room() && inner in inners && InnerIs(inners[inner], keys, ids) && |keys| == M && k <= M
      requires cmp >= keys[HALF - 1] <==> k >= HALF
      modifies this`inners, this`next
      ensures Room() && ns == old(next) && next == ns + 1 && inners.Keys == old(inners.Keys) + {ns}
      ensures forall x | x in old(inners) && x != inner :: inners[x] == old(inners)[x]
      ensures |inners[ns].keys| == M && inners[ns].keys[M - 1] == keys[HALF - 1]
      ensures if k >= HALF then
                && InnerIs(inners[inner], keys[..HALF - 1], ids[..HALF])
                && InnerIs(inners[ns], InsertAt(keys[HALF..], k - HALF, up), InsertAt(ids[HALF..], k - HALF + 1, kid))
              else
                && InnerIs(inners[inner], InsertAt(keys[..HALF - 1], k, up), InsertAt(ids[..HALF], k + 1, kid))
                && InnerIs(inners[ns], keys[HALF..], ids[HALF..])
    {
      ns := NewInner();
      var mid := CutAtMiddle(inner, ns, keys, ids);
      var to, j := inner, k;
      if cmp >= mid {
        to := ns;
        j := if k >= HALF then k - HALF else 0;
      }
      if to == ns {
        AddToInner(ns, j, up, kid, keys[HALF..], ids[HALF..]);
      } else {
        AddToInner(inner, j, up, kid, keys[..HALF - 1], ids[..HALF]);
      }
    }

    /** Node inner takes in a new child right of its k-th one; ns is 0 or the node's new right neighbour. */
    method AdoptCells(inner: Addr, k: nat, up: Key, kid: Addr, cmp: Key, lone: bool, ghost keys: seq<Key>, ghost ids: seq<Addr>) returns (ns: Addr)
      requires Room() && inner in inners && InnerIs(inners[inner], keys, ids) && k <= |keys|
      requires |keys| == M && !lone ==> (cmp >= keys[HALF - 1] <==> k >= HALF)
      modifies this`inners, this`next
      ensures Room() && inners.Keys == old(inners.Keys) + (if ns == 0 then {} else {ns})
      ensures if |keys| < M then ns == 0 && next == old(next) else ns == old(next) && next == ns + 1
      ensures forall x | x in old(inners) && x != inner :: inners[x] == old(inners)[x]
      ensures ns != 0 ==> |inners[ns].keys| == M && inners[ns].keys[M - 1] == if lone then up else keys[HALF - 1]
      ensures if |keys| < M then InnerIs(inners[inner], InsertAt(keys, k, up), InsertAt(ids, k + 1, kid))
              else if lone then InnerIs(inners[inner], keys, ids) && InnerIs(inners[ns], [], [kid])
              else if k >= HALF then
                && InnerIs(inners[inner], keys[..HALF - 1], ids[..HALF])
                && InnerIs(inners[ns], InsertAt(keys[HALF..], k - HALF, up), InsertAt(ids[HALF..], k - HALF + 1, kid))
              else
                && InnerIs(inners[inner], InsertAt(keys[..HALF - 1], k, up), InsertAt(ids[..HALF], k + 1, kid))
                && InnerIs(inners[ns], keys[HALF..], ids[HALF..])
    {
      if inners[inner].num < M {
        ns := 0;
        AddToInner(inner, k, up, kid, keys, ids);
      } else if lone {
        ns := NewInner();
        var c := inners[ns];
        inners := inners[ns := c.(keys := c.keys[M - 1 := up], kids := c.kids[0 := kid])];
        assert inners[ns].kids[..1] == [kid];
      } else {
        ns := AdoptHalves(inner, k, up, kid, cmp, keys, ids);
      }
    }

    ghost function V(): Mem
      reads this`leaves, this`inners
    {
      Mem(leaves, inners)
    }

    /** Insert below a node of depth d. sib is 0 or the new right neighbour of the node. */
    method InsertBelow(key: Key, node: Addr, d: nat, v: Val, ghost t: Tree, ghost last: bool, ghost lo: nat, ghost hi: nat)
      returns (sib: Addr, val: Val, ghost w: Trace)
      requires Room() && t.id == node && Rep(V(), t) && Apart(t) && Below(t, next)
      requires WF(t, d, lo, hi) && lo <= key < hi <= LIMIT && RightEnds(leaves, Leaves(t), last)
      modifies this`leaves, this`inners, this`next
      ensures Room() && next == w.r.next && sib == SplitId(w.r) && val == w.val
      ensures Inserted(old(V()), V(), t, d, key, v, last, lo, hi, old(next), w)
      ensures w.r.split.SplitOff? ==> UpIs(V(), d, sib, w.r.split.up)
      decreases d, 0
    {
      if d == 0 {
        sib, val, w := InsertAtLeaf(key, node, v, t, last, lo, hi);
      } else {
        NodeIsFan(t, d - 1, lo, hi);
        sib, val, w := InnerInsert(key, node, d - 1, v, t, last, lo, hi);
      }
    }

    method InsertAtLeaf(key: Key, leaf: Addr, v: Val, ghost t: Tree, ghost last: bool, ghost lo: nat, ghost hi: nat)
      returns (sib: Addr, val: Val, ghost w: Trace)
      requires Room() && t.id == leaf && Rep(V(), t) && WF(t, 0, lo, hi) && lo <= key < hi <= LIMIT && RightEnds(leaves, Leaves(t), last)
      modifies this`leaves, this`next
      ensures Room() && next == w.r.next && sib == SplitId(w.r) && val == w.val
      ensures Inserted(old(V()), V(), t, 0, key, v, last, lo, hi, old(next), w)
      ensures w.r.split.SplitOff? ==> UpIs(V(), 0, sib, w.r.split.up)
    {
      assert RightEndAt(leaves, Leaves(t), last, 0);
      ghost var r, bump;
      sib, val, r, bump := LeafInsert(key, leaf, v, t);
      w := Trace(r, 0, t, r, last, bump, val);
      LeafInsShape(t, key, v, last, old(next));
      if sib != 0 { LiveKeys(leaves[sib], r.split.right); }
      LeafInserted(old(V()), V(), t, key, v, lo, hi, old(next), w);
    }

    /** Insert into the child that the key leads to, and take in its new right neighbour if it has one. */
    method InnerInsert(key: Key, inner: Addr, d: nat, v: Val, ghost t: Tree, ghost last: bool, ghost lo: nat, ghost hi: nat)
      returns (ns: Addr, val: Val, ghost w: Trace)
      requires Room() && t.id == inner && Rep(V(), t) && Apart(t) && Below(t, next)
      requires NodeOk(t, d, lo, hi) && lo <= key < hi <= LIMIT && RightEnds(leaves, Leaves(t), last)
      modifies this`leaves, this`inners, this`next
      ensures Room() && next == w.r.next && ns == SplitId(w.r) && val == w.val
      ensures Inserted(old(V()), V(), t, d + 1, key, v, last, lo, hi, old(next), w)
      ensures w.r.split.SplitOff? ==> UpIs(V(), d + 1, ns, w.r.split.up)
      decreases d, 1
    {
      var k := ChildSlot(inner, key, t);
      KidReady(V(), t, d, key, last, lo, hi, next);
      var child := inners[inner].kids[k];
      assert child == t.kids[k].id by { assert inners[inner].kids[..inners[inner].num + 1][k] == child; }
      var sib;
      sib, val, w := InsertBelow(key, child, d, v, t.kids[k], last && k == |t.keys|, Low(t.keys, lo, k), High(t.keys, hi, k));
      ns, w := AfterChild(inner, k, sib, key, d, v, t, last, lo, hi, old(V()), old(next), w);
    }

    /** The rest of an insertion, when the child has taken the key in and perhaps been split. */
    method AfterChild(inner: Addr, k: nat, sib: Addr, key: Key, d: nat, v: Val, ghost t: Tree, ghost last: bool, ghost lo: nat, ghost hi: nat,
                      ghost mem: Mem, ghost n: Addr, ghost w: Trace) returns (ns: Addr, ghost w': Trace)
      requires Room() && NodeOk(t, d, lo, hi) && hi <= LIMIT && k <= |t.keys| && Low(t.keys, lo, k) <= key < High(t.keys, hi, k)
      requires t.id == inner && Rep(mem, t) && Apart(t) && Below(t, n) && 0 < n && next == w.r.next && sib == SplitId(w.r)
      requires Inserted(mem, V(), t.kids[k], d, key, v, last && k == |t.keys|, Low(t.keys, lo, k), High(t.keys, hi, k), n, w)
      requires w.r.split.SplitOff? ==> UpIs(V(), d, sib, w.r.split.up)
      modifies this`inners, this`next
      ensures Room() && next == w'.r.next && ns == SplitId(w'.r) && w'.val == w.val
      ensures Inserted(mem, V(), t, d + 1, key, v, last, lo, hi, n, w')
      ensures w'.r.split.SplitOff? ==> UpIs(V(), d + 1, ns, w'.r.split.up)
    {
      ghost var mem1 := V();
      OwnCellKept(mem, mem1, t, k, n);
      ns := 0;
      if sib != 0 {
        ns := TakeIn(inner, k, sib, key, d, t, lo, hi, w.r);
        AdoptSplits(t, d, k, key, w.r, lo, hi);
      }
      w' := InsertedUp(mem, mem1, V(), t, d, key, v, last, lo, hi, k, n, w);
    }

    /** What a node needs to know about the new right neighbour of its child. */
    method ReadSibling(sib: Addr, d: nat, ghost up: Key, ghost t: Tree) returns (k: Key, lone: bool)
      requires t.id == sib && Rep(V(), t) && UpIs(V(), d, sib, up) && (t.Leaf? <==> d == 0)
      ensures k == up && lone == Lone(t)
    {
      if d == 0 {
        k, lone := leaves[sib].keys[0], leaves[sib].num == 1;
      } else {
        k, lone := inners[sib].keys[M - 1], inners[sib].num == 0;
      }
    }

    /** Node inner takes in the new right neighbour of its k-th child. */
    method TakeIn(inner: Addr, k: nat, sib: Addr, key: Key, d: nat, ghost t: Tree, ghost lo: nat, ghost hi: nat, ghost r: Outcome) returns (ns: Addr)
      requires Room() && NodeOk(t, d, lo, hi) && k <= |t.keys| && Low(t.keys, lo, k) <= key < High(t.keys, hi, k)
      requires inner == t.id && inner in inners && InnerIs(inners[inner], t.keys, IdsOf(t.kids))
      requires r.split.SplitOff? && r.split.right.id == sib && next == r.next && Rep(V(), r.split.right)
      requires Fills(r, d, Low(t.keys, lo, k), High(t.keys, hi, k)) && (Lone(r.split.right) ==> k == |t.keys|)
      requires UpIs(V(), d, sib, r.split.up)
      modifies this`inners, this`next
      ensures Room() && TakenIn(old(V()), V(), t, k, r)
      ensures ns == (if |t.keys| < M then 0 else old(next)) && next == (if |t.keys| < M then old(next) else ns + 1)
      ensures |t.keys| == M ==> UpIs(V(), d + 1, ns, if Lone(r.split.right) then r.split.up else t.keys[HALF - 1])
    {
      var up, lone := ReadSibling(sib, d, r.split.up, r.split.right);
      var cmp := if d == 0 then up else key;
      if |t.keys| == M { MiddleTells(t, d, k, key, r, lo, hi); }
      ns := AdoptCells(inner, k, up, sib, cmp, lone, t.keys, IdsOf(t.kids));
    }
  }

  /** The parts of a full leaf after the entry has been added to one of them. */
  lemma FullParts(t: Tree, k: nat, key: Key, v: Val, r: Outcome, end: bool, sib: Addr, low: bool, j: nat, keys: seq<Key>, vals: seq<Val>)
    requires t.Leaf? && |t.keys| == |t.vals| == M && k <= M
    requires r == if end then Outcome(t, SplitOff(key, Leaf(sib, [key], [v])), sib + 1) else LeafCut(t, k, key, v, sib)
    requires low == (!end && k < HALF) && j == if end then 0 else if low then k else k - HALF
    requires keys == (if end then [] else if low then t.keys[..HALF] else t.keys[HALF..])
    requires vals == (if end then [] else if low then t.vals[..HALF] else t.vals[HALF..])
    ensures r.split.SplitOff?
    ensures var (keys', vals') := (InsertAt(keys, j, key), InsertAt(vals, j, v));
            if low then r.tree == Leaf(t.id, keys', vals') && r.split.right == Leaf(sib, t.keys[HALF..], t.vals[HALF..])
            else r.split.right == Leaf(sib, keys', vals') && r.tree == if end then t else Leaf(t.id, t.keys[..HALF], t.vals[..HALF])
  {
    if end { assert InsertAt(keys, j, key) == [key] && InsertAt(vals, j, v) == [v]; }
  }

  /** When a node splits, and at which key. */
  lemma AdoptSplits(t: Tree, d: nat, k: nat, key: Key, r: Outcome, lo: nat, hi: nat)
    requires NodeOk(t, d, lo, hi) && k <= |t.keys| && Low(t.keys, lo, k) <= key < High(t.keys, hi, k)
    requires r.split.SplitOff? && Fills(r, d, Low(t.keys, lo, k), High(t.keys, hi, k))
    ensures var a := Absorb(t, k, key, r);
            && (a.split.SplitOff? <==> |t.keys| == M) && a.next == (if |t.keys| == M then r.next + 1 else r.next)
            && (a.split.SplitOff? ==> a.split.right.id == r.next && a.split.up == if Lone(r.split.right) then r.split.up else t.keys[HALF - 1])
  {
    if |t.keys| == M { MiddleTells(t, d, k, key, r, lo, hi); }
  }

  /** The last key slot of a node that is not full is not live. */
  lemma StaleSlot(c: InnerCell, keys: seq<Key>, ids: seq<Addr>, x: Key)
    requires InnerIs(c, keys, ids) && |keys| < M
    ensures InnerIs(c.(keys := c.keys[M - 1 := x]), keys, ids)
  {
    assert c.keys[M - 1 := x][..c.num] == c.keys[..c.num];
  }

  lemma LiveKeys(c: LeafCell, t: Tree)
    requires t.Leaf? && LeafIs(c, t.keys, t.vals)
    ensures forall i | 0 <= i < c.num :: c.keys[i] == t.keys[i] && c.vals[i] == t.vals[i]
  {
    assert forall i | 0 <= i < c.num :: c.keys[i] == c.keys[..c.num][i] && c.vals[i] == c.vals[..c.num][i];
  }

  /** An array whose elements from k on have moved up by one, with x in the gap. */
  lemma ShiftedIs<T>(was: seq<T>, now: seq<T>, live: seq<T>, k: nat, x: T)
    requires |now| == |was| && |live| < |was| && k <= |live| && was[..|live|] == live
    requires forall i | 0 <= i < k :: now[i] == was[i]
    requires now[k] == x && forall i | k < i <= |live| :: now[i] == was[i - 1]
    ensures now[..|live| + 1] == InsertAt(live, k, x)
  {
    forall i | 0 <= i < |live| ensures was[i] == live[i] { assert was[..|live|][i] == live[i]; }
  }
}
