/** Scans: an iterator is placed once and moved on again and again while others insert. */
module BTreeScan {
  import opened BTree
  import opened BTreeChain
  import opened BTreeEntries
  import opened BTreeSteps
  import opened BTreeStore
  import opened BTreeIterator

  type Entry = (Key, Val)

  ghost function KeysOf(ls: seq<Tree>): (keys: set<Key>)
    ensures forall x :: x in keys <==> Present(ls, x)
  {
    set i, x | 0 <= i < |ls| && x in ls[i].keys :: x
  }

  ghost function BatchKeys(batch: seq<Entry>): set<Key> {
    set i | 0 <= i < |batch| :: batch[i].0
  }

  // ---------------------------------------------------------------------------------------------
  // What a scan yields
  // ---------------------------------------------------------------------------------------------

  /** When i keys have been yielded, key x is still to come. */
  predicate Ahead(target: Key, out: seq<Key>, i: nat, x: Key)
    requires i <= |out|
  {
    if i == 0 then target <= x else out[i - 1] < x
  }

  /** The i-th call goes to the first key ahead in what the tree holds then, which is contents[i]; if the
      scan has ended, nothing was ahead at the last call. */
  ghost predicate Scan(contents: seq<set<Key>>, target: Key, out: seq<Key>, ended: bool) {
    && |contents| == |out| + (if ended then 1 else 0)
    && (forall i, j | 0 <= i < j < |contents| :: contents[i] <= contents[j])
    && (forall i | 0 <= i < |out| :: ScanAt(contents, target, out, i))
    && (ended ==> forall x | x in contents[|out|] :: !Ahead(target, out, |out|, x))
  }

  ghost predicate ScanAt(contents: seq<set<Key>>, target: Key, out: seq<Key>, i: nat)
    requires i < |out| && i < |contents|
  {
    out[i] in contents[i] && Ahead(target, out, i, out[i]) && forall x | x in contents[i] && Ahead(target, out, i, x) :: out[i] <= x
  }

  /** A key that is in the tree at the i-th call and still ahead is not skipped, if the scan gets that far. */
  lemma {:induction false} SkipsNothing(contents: seq<set<Key>>, target: Key, out: seq<Key>, ended: bool, i: nat, x: Key)
    requires Scan(contents, target, out, ended) && i < |contents| && x in contents[i] && Ahead(target, out, i, x)
    requires ended || x <= out[|out| - 1]
    ensures x in out[i..]
    decreases |out| - i
  {
    if i < |out| {
      assert ScanAt(contents, target, out, i);
      if out[i] == x {
        assert out[i..][0] == x;
      } else {
        SkipsNothing(contents, target, out, ended, i + 1, x);
        assert out[i + 1..] == out[i..][1..];
      }
    }
  }

  lemma {:induction false} Increases(contents: seq<set<Key>>, target: Key, out: seq<Key>, ended: bool, i: nat, j: nat)
    requires Scan(contents, target, out, ended) && i <= j < |out|
    ensures target <= out[i] && (i < j ==> out[i] < out[j])
    decreases j
  {
    assert ScanAt(contents, target, out, j);
    if i < j {
      Increases(contents, target, out, ended, i, j - 1);
    } else if 0 < i {
      Increases(contents, target, out, ended, i - 1, i - 1);
    }
  }

  lemma ScanMeans(contents: seq<set<Key>>, target: Key, out: seq<Key>, ended: bool)
    requires Scan(contents, target, out, ended)
    ensures forall i | 0 <= i < |out| :: target <= out[i]
    ensures forall i, j | 0 <= i < j < |out| :: out[i] < out[j]
    ensures forall i, x | 0 <= i < |contents| && x in contents[i] && Ahead(target, out, i, x) && (ended || x <= out[|out| - 1]) :: x in out[i..]
  {
    forall i, j | 0 <= i <= j < |out| ensures target <= out[i] && (i < j ==> out[i] < out[j]) {
      Increases(contents, target, out, ended, i, j);
    }
    forall i, x | 0 <= i < |contents| && x in contents[i] && Ahead(target, out, i, x) && (ended || x <= out[|out| - 1]) ensures x in out[i..] {
      SkipsNothing(contents, target, out, ended, i, x);
    }
  }

  lemma ScanGoesOn(contents: seq<set<Key>>, target: Key, out: seq<Key>, keys: set<Key>, x: Key)
    requires Scan(contents, target, out, false) && (contents == [] || contents[|contents| - 1] <= keys)
    requires x in keys && Ahead(target, out, |out|, x) && forall y | y in keys && Ahead(target, out, |out|, y) :: x <= y
    ensures Scan(contents + [keys], target, out + [x], false)
  {
    var contents', out' := contents + [keys], out + [x];
    forall i | 0 <= i < |out'| ensures ScanAt(contents', target, out', i) {
      if i < |out| { assert ScanAt(contents, target, out, i); }
    }
  }

  lemma ScanEnds(contents: seq<set<Key>>, target: Key, out: seq<Key>, keys: set<Key>)
    requires Scan(contents, target, out, false) && (contents == [] || contents[|contents| - 1] <= keys)
    requires forall y | y in keys :: !Ahead(target, out, |out|, y)
    ensures Scan(contents + [keys], target, out, true)
  {
    var contents' := contents + [keys];
    forall i | 0 <= i < |out| ensures ScanAt(contents', target, out, i) {
      assert ScanAt(contents, target, out, i);
    }
  }

  // ---------------------------------------------------------------------------------------------
  // A scan with insertions in between
  // ---------------------------------------------------------------------------------------------

  ghost predicate Keeps(ls: seq<Tree>, ls': seq<Tree>) {
    forall x, y :: Holds(ls, x, y) ==> Holds(ls', x, y)
  }

  /** The chain ls' has what ls has and the batch. */
  ghost predicate Took(ls: seq<Tree>, ls': seq<Tree>, batch: seq<Entry>) {
    KeysOf(ls') == KeysOf(ls) + BatchKeys(batch) && Keeps(ls, ls')
  }

  lemma StepTakes(ls: seq<Tree>, ls': seq<Tree>, key: Key, v: Val)
    requires Chain(ls) && Chain(ls')
    requires forall x, y :: Holds(ls', x, y) <==> Holds(ls, x, y) || (x == key && y == v && !Present(ls, key))
    ensures Took(ls, ls', [(key, v)])
  {
    forall x ensures Present(ls', x) <==> Present(ls, x) || x == key {
      if Present(ls, x) {
        var y := PresentHolds(ls, x);
        HoldsOne(ls', x, y, y);
      } else if Present(ls', x) {
        var y := PresentHolds(ls', x);
        HoldsOne(ls, x, y, y);
      }
      if x == key && !Present(ls, x) { HoldsOne(ls', x, v, v); }
    }
    assert [(key, v)][0] == (key, v);
  }

  /** Somebody inserts one entry. The iterator stays placed. */
  method InsertOne(it: Iterator, e: Entry)
    requires it.tree.Valid() && !it.tree.Empty() && it.Placed()
    modifies it.tree
    ensures it.tree.Valid() && !it.tree.Empty() && it.Placed()
    ensures Took(old(it.Chain()), it.Chain(), [e])
  {
    ghost var ls := it.Chain();
    it.ChainFacts();
    var v;
    ghost var w;
    v, w := it.tree.Insert(e.0, e.1);
    it.ChainFacts();
    StepTakes(ls, it.Chain(), e.0, e.1);
    StepKeepsPos(old(it.tree.leaves), it.tree.leaves, ls, it.Chain(), e.0, e.1, old(it.tree.next), w, it.node, it.index, it.key, it.seqno);
  }

  lemma TakesOn(ls: seq<Tree>, ls': seq<Tree>, ls'': seq<Tree>, batch: seq<Entry>, i: nat)
    requires i < |batch| && Took(ls, ls', batch[..i]) && Took(ls', ls'', [batch[i]])
    ensures Took(ls, ls'', batch[..i + 1])
  {
    assert BatchKeys(batch[..i + 1]) == BatchKeys(batch[..i]) + BatchKeys([batch[i]]) by {
      assert batch[..i + 1] == batch[..i] + [batch[i]];
      assert [batch[i]][0] == batch[i];
      forall x | x in BatchKeys(batch[..i]) ensures x in BatchKeys(batch[..i + 1]) {
        var j :| 0 <= j < i && batch[j].0 == x;
        assert batch[..i + 1][j].0 == x;
      }
      assert batch[..i + 1][i] == batch[i];
    }
  }

  method InsertAll(it: Iterator, batch: seq<Entry>)
    requires it.tree.Valid() && !it.tree.Empty() && it.Placed()
    modifies it.tree
    ensures it.tree.Valid() && !it.tree.Empty() && it.Placed()
    ensures Took(old(it.Chain()), it.Chain(), batch)
  {
    var i := 0;
    while i < |batch|
      invariant i <= |batch| && it.tree.Valid() && !it.tree.Empty() && it.Placed()
      invariant Took(old(it.Chain()), it.Chain(), batch[..i])
    {
      ghost var ls := it.Chain();
      InsertOne(it, batch[i]);
      TakesOn(old(it.Chain()), ls, it.Chain(), batch, i);
      i := i + 1;
    }
    assert batch[..i] == batch;
  }

  /** What the tree holds at each call: the i-th batch comes in before the i-th call of Next. */
  ghost predicate Grows(contents: seq<set<Key>>, batches: seq<seq<Entry>>) {
    && |contents| <= |batches| + 1
    && forall i | 0 < i < |contents| :: contents[i] == contents[i - 1] + BatchKeys(batches[i - 1])
  }

  /** Each key comes with its record. */
  ghost predicate Recorded(ls: seq<Tree>, out: seq<Key>, vals: seq<Val>) {
    |vals| == |out| && forall i | 0 <= i < |out| :: Holds(ls, out[i], vals[i])
  }

  /** What a scan has seen, over a chain that now is ls. */
  ghost predicate Tracked(ls: seq<Tree>, target: Key, batches: seq<seq<Entry>>, contents: seq<set<Key>>, out: seq<Key>, vals: seq<Val>, ended: bool) {
    && Scan(contents, target, out, ended) && Grows(contents, batches) && Recorded(ls, out, vals)
    && contents != [] && contents[|contents| - 1] == KeysOf(ls)
  }

  lemma FirstCall(ls: seq<Tree>, target: Key, batches: seq<seq<Entry>>, ended: bool, key: Key, val: Val)
    requires if ended then forall x: Key | Present(ls, x) :: x < target else FirstFrom(ls, target, key) && Holds(ls, key, val)
    ensures Tracked(ls, target, batches, [KeysOf(ls)], if ended then [] else [key], if ended then [] else [val], ended)
  {
    if ended { ScanEnds([], target, [], KeysOf(ls)); } else { ScanGoesOn([], target, [], KeysOf(ls), key); }
  }

  lemma NextCall(ls: seq<Tree>, ls': seq<Tree>, target: Key, batches: seq<seq<Entry>>, contents: seq<set<Key>>, out: seq<Key>, vals: seq<Val>,
                 ended: bool, key: Key, val: Val)
    requires Tracked(ls, target, batches, contents, out, vals, false) && |out| <= |batches| && Took(ls, ls', batches[|out| - 1])
    requires if ended then NoneAbove(ls', out[|out| - 1]) else Successor(ls', out[|out| - 1], key) && Holds(ls', key, val)
    ensures Tracked(ls', target, batches, contents + [KeysOf(ls')], if ended then out else out + [key], if ended then vals else vals + [val], ended)
  {
    if ended { ScanEnds(contents, target, out, KeysOf(ls')); } else { ScanGoesOn(contents, target, out, KeysOf(ls'), key); }
  }

  method InsertAndNext(it: Iterator, batch: seq<Entry>) returns (ended: bool)
    requires it.tree.Valid() && !it.tree.Empty() && it.Placed()
    modifies it, it.tree
    ensures it.tree.Valid() && Took(old(it.Chain()), it.Chain(), batch) && ended == (it.node == 0)
    ensures ended ==> NoneAbove(it.Chain(), old(it.key))
    ensures !ended ==> !it.tree.Empty() && it.Placed() && Successor(it.Chain(), old(it.key), it.key) && Holds(it.Chain(), it.key, it.val)
  {
    InsertAll(it, batch);
    var _ := it.Next();
    ended := it.node == 0;
  }

  /** Seek, and then Next again and again, with any insertions in between: the keys strictly increase
      from the target on; a key is yielded if it was there from the start, and even if it came in
      later, while still ahead; and each comes with its record. */
  method ScanRun(tree: BPlusTree, target: Key, batches: seq<seq<Entry>>) returns (out: seq<Key>, vals: seq<Val>, ended: bool, ghost contents: seq<set<Key>>)
    requires tree.Valid()
    modifies tree
    ensures tree.Valid() && Tracked(Leaves(tree.tree), target, batches, contents, out, vals, ended)
    ensures contents[0] == old(KeysOf(Leaves(tree.tree))) && (!ended ==> |out| == |batches| + 1)
    ensures forall i | 0 <= i < |out| :: target <= out[i]
    ensures forall i, j | 0 <= i < j < |out| :: out[i] < out[j]
    ensures forall i, x | 0 <= i < |contents| && x in contents[i] && Ahead(target, out, i, x) && (ended || x <= out[|out| - 1]) :: x in out[i..]
  {
    var it := new Iterator(tree);
    it.Seek(target);
    ended := it.node == 0;
    FirstCall(it.Chain(), target, batches, ended, it.key, it.val);
    contents := [KeysOf(it.Chain())];
    out, vals := if ended then [] else [it.key], if ended then [] else [it.val];
    while !ended && |out| <= |batches|
      invariant it.tree == tree && tree.Valid() && Tracked(it.Chain(), target, batches, contents, out, vals, ended)
      invariant contents[0] == old(KeysOf(Leaves(tree.tree)))
      invariant !ended ==> |out| <= |batches| + 1 && !tree.Empty() && it.Placed() && it.key == out[|out| - 1]
      decreases |batches| - |out|, !ended
    {
      ghost var ls := it.Chain();
      ended := InsertAndNext(it, batches[|out| - 1]);
      NextCall(ls, it.Chain(), target, batches, contents, out, vals, ended, it.key, it.val);
      contents := contents + [KeysOf(it.Chain())];
      if !ended { out, vals := out + [it.key], vals + [it.val]; }
    }
    ScanMeans(contents, target, out, ended);
  }
}
