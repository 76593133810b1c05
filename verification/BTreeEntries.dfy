/** The entries of a B+ tree, and what insertion does to them. */
module BTreeEntries {
  import opened BTree
  import opened BTreeChain

  ghost predicate At(l: Tree, m: nat, x: Key, w: Val) {
    l.Leaf? && m < |l.keys| && m < |l.vals| && l.keys[m] == x && l.vals[m] == w
  }

  ghost predicate LeafHolds(l: Tree, x: Key, w: Val) {
    exists m :: At(l, m, x, w)
  }

  /** The chain leads from key x to record w. */
  ghost predicate Holds(ls: seq<Tree>, x: Key, w: Val) {
    exists i :: 0 <= i < |ls| && LeafHolds(ls[i], x, w)
  }

  ghost predicate Present(ls: seq<Tree>, x: Key) {
    exists i :: 0 <= i < |ls| && x in ls[i].keys
  }

  /** A chain leads from each key it has to exactly one record. */
  lemma HoldsOne(ls: seq<Tree>, x: Key, w: Val, w': Val)
    requires Chain(ls)
    ensures Holds(ls, x, w) && Holds(ls, x, w') ==> w == w'
    ensures Holds(ls, x, w) ==> Present(ls, x)
  {
    if Holds(ls, x, w) {
      var i, m := Find(ls, x, w);
      if Holds(ls, x, w') {
        var i', m' := Find(ls, x, w');
        SamePlace(ls, i, m, i', m');
      }
    }
  }

  lemma SamePlace(ls: seq<Tree>, i: nat, m: nat, i': nat, m': nat)
    requires Chain(ls) && i < |ls| && i' < |ls| && m < |ls[i].keys| && m' < |ls[i'].keys| && ls[i].keys[m] == ls[i'].keys[m']
    ensures i == i' && m == m'
  {
    assert LeafOk(ls[i], 0, LIMIT);
    forall a, b | 0 <= a < b < |ls| ensures Before(ls[a], ls[b]) { }
  }

  lemma Find(ls: seq<Tree>, x: Key, w: Val) returns (i: nat, m: nat)
    requires Holds(ls, x, w)
    ensures i < |ls| && At(ls[i], m, x, w)
  {
    i :| 0 <= i < |ls| && LeafHolds(ls[i], x, w);
    m :| At(ls[i], m, x, w);
  }

  /** A key that is present leads to a record. */
  lemma PresentHolds(ls: seq<Tree>, x: Key) returns (w: Val)
    requires Chain(ls) && Present(ls, x)
    ensures Holds(ls, x, w)
  {
    var i :| 0 <= i < |ls| && x in ls[i].keys;
    var m :| 0 <= m < |ls[i].keys| && ls[i].keys[m] == x;
    assert LeafOk(ls[i], 0, LIMIT);
    w := ls[i].vals[m];
    assert At(ls[i], m, x, w);
    assert LeafHolds(ls[i], x, w);
  }

  // ---------------------------------------------------------------------------------------------
  // Insertion into a leaf
  // ---------------------------------------------------------------------------------------------

  lemma AddedHolds(l: Tree, k: nat, key: Key, v: Val, x: Key, w: Val)
    requires l.Leaf? && |l.keys| == |l.vals| && k <= |l.keys|
    ensures LeafHolds(l.(keys := InsertAt(l.keys, k, key), vals := InsertAt(l.vals, k, v)), x, w) <==>
            LeafHolds(l, x, w) || (x == key && w == v)
  {
    var r := l.(keys := InsertAt(l.keys, k, key), vals := InsertAt(l.vals, k, v));
    assert At(r, k, key, v);
    if m: nat :| At(l, m, x, w) { assert At(r, if m < k then m else m + 1, x, w); }
    if m: nat :| At(r, m, x, w) { assert m != k ==> At(l, if m < k then m else m - 1, x, w); }
  }

  lemma CutHolds(l: Tree, h: nat, id: nat, x: Key, w: Val)
    requires l.Leaf? && |l.keys| == |l.vals| && h <= |l.keys|
    ensures LeafHolds(l, x, w) <==> LeafHolds(Leaf(l.id, l.keys[..h], l.vals[..h]), x, w) || LeafHolds(Leaf(id, l.keys[h..], l.vals[h..]), x, w)
  {
    var a, b := Leaf(l.id, l.keys[..h], l.vals[..h]), Leaf(id, l.keys[h..], l.vals[h..]);
    if m: nat :| At(l, m, x, w) { assert if m < h then At(a, m, x, w) else At(b, m - h, x, w); }
    if m: nat :| At(a, m, x, w) { assert At(l, m, x, w); }
    if m: nat :| At(b, m, x, w) { assert At(l, m + h, x, w); }
  }

  ghost predicate EitherHolds(r: Outcome, x: Key, w: Val) {
    LeafHolds(r.tree, x, w) || (r.split.SplitOff? && LeafHolds(r.split.right, x, w))
  }

  lemma LeafCutHolds(t: Tree, k: nat, key: Key, v: Val, next: nat, x: Key, w: Val)
    requires t.Leaf? && k <= |t.keys| == |t.vals| == M
    ensures EitherHolds(LeafCut(t, k, key, v, next), x, w) <==> LeafHolds(t, x, w) || (x == key && w == v)
  {
    CutHolds(t, HALF, next, x, w);
    if k < HALF {
      AddedHolds(Leaf(t.id, t.keys[..HALF], t.vals[..HALF]), k, key, v, x, w);
    } else {
      AddedHolds(Leaf(next, t.keys[HALF..], t.vals[HALF..]), k - HALF, key, v, x, w);
    }
  }

  lemma LeafInsHolds(t: Tree, key: Key, v: Val, last: bool, next: nat, x: Key, w: Val)
    requires LeafOk(t, 0, LIMIT)
    ensures EitherHolds(LeafIns(t, key, v, last, next), x, w) <==> LeafHolds(t, x, w) || (x == key && w == v && key !in t.keys)
  {
    var k := LowerBound(t.keys, key);
    if k < |t.keys| && t.keys[k] == key {
    } else if |t.keys| < M {
      NotInLeaf(t.keys, k, key);
      AddedHolds(t, k, key, v, x, w);
    } else if last && k == |t.keys| {
      NotInLeaf(t.keys, k, key);
      OneHolds(next, key, v, x, w);
    } else {
      NotInLeaf(t.keys, k, key);
      LeafCutHolds(t, k, key, v, next, x, w);
    }
  }

  lemma OneHolds(id: nat, key: Key, v: Val, x: Key, w: Val)
    ensures LeafHolds(Leaf(id, [key], [v]), x, w) <==> x == key && w == v
  {
    assert At(Leaf(id, [key], [v]), 0, key, v);
  }

  lemma NotInLeaf(keys: seq<Key>, k: nat, key: Key)
    requires Ascending(keys) && k <= |keys| && (forall j | 0 <= j < k :: keys[j] < key) && (k < |keys| ==> key < keys[k])
    ensures key !in keys
  {
  }

  // ---------------------------------------------------------------------------------------------
  // Insertion into a chain
  // ---------------------------------------------------------------------------------------------

  /** Present keys are in the leaf they lead to. */
  lemma PresentInLeaf(ls: seq<Tree>, j: nat, key: Key)
    requires Routed(ls, j, key)
    ensures Present(ls, key) <==> key in ls[j].keys
  {
    if i :| 0 <= i < |ls| && key in ls[i].keys {
      var m :| 0 <= m < |ls[i].keys| && ls[i].keys[m] == key;
    }
  }

  lemma HoldsAround(ls: seq<Tree>, j: nat, pair: seq<Tree>, x: Key, w: Val)
    requires j < |ls|
    ensures Holds(ls[..j] + pair + ls[j + 1..], x, w) <==>
            Holds(pair, x, w) || (exists i :: 0 <= i < |ls| && i != j && LeafHolds(ls[i], x, w))
  {
    var r := ls[..j] + pair + ls[j + 1..];
    if i :| 0 <= i < |r| && LeafHolds(r[i], x, w) {
      if i < j { assert r[i] == ls[i]; }
      else if i < j + |pair| { assert r[i] == pair[i - j]; }
      else { assert r[i] == ls[i - |pair| + 1]; }
    }
    if i :| 0 <= i < |pair| && LeafHolds(pair[i], x, w) { assert r[j + i] == pair[i]; }
    if i :| 0 <= i < |ls| && i != j && LeafHolds(ls[i], x, w) {
      if i < j { assert r[i] == ls[i]; } else { assert r[i + |pair| - 1] == ls[i]; }
    }
  }

  /** Insertion adds the entry if its key is new, and keeps every other one. */
  lemma GrownHolds(ls: seq<Tree>, ls': seq<Tree>, j: nat, key: Key, v: Val, r: Outcome, end: bool, last: bool, next: nat, x: Key, w: Val)
    requires Chain(ls) && j < |ls| && LeafOk(ls[j], 0, LIMIT) && r == LeafIns(ls[j], key, v, end, next)
    requires Grown(ls, ls', j, key, ls[j], LeafPair(r), end, last)
    ensures Holds(ls', x, w) <==> Holds(ls, x, w) || (x == key && w == v && !Present(ls, key))
  {
    assert LeafOk(ls[j], 0, LIMIT);
    LeafInsHolds(ls[j], key, v, end, next, x, w);
    PresentInLeaf(ls, j, key);
    HoldsAround(ls, j, LeafPair(r), x, w);
    PairHolds(r, x, w);
  }

  lemma PairHolds(r: Outcome, x: Key, w: Val)
    ensures Holds(LeafPair(r), x, w) <==> EitherHolds(r, x, w)
  {
    assert LeafPair(r)[0] == r.tree;
    assert r.split.SplitOff? ==> LeafPair(r)[1] == r.split.right;
  }
}
