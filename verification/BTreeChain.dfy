/** The leaves of a B+ tree from left to right, their entries, and what insertion does to them. */
module BTreeChain {
  import opened BTree

  // ---------------------------------------------------------------------------------------------
  // Leaves
  // ---------------------------------------------------------------------------------------------

  ghost function Leaves(t: Tree): seq<Tree>
    decreases t, if t.Node? then |t.kids| + 2 else 0
  {
    if t.Leaf? then [t] else LeavesFrom(t, 0)
  }

  /** The leaves below the children from the i-th on. */
  ghost function LeavesFrom(t: Tree, i: nat): seq<Tree>
    requires t.Node? && i <= |t.kids|
    decreases t, 1 + |t.kids| - i
  {
    if i == |t.kids| then [] else Leaves(t.kids[i]) + LeavesFrom(t, i + 1)
  }

  ghost function LeavesOf(kids: seq<Tree>): seq<Tree> {
    LeavesFrom(Node(0, [], kids), 0)
  }

  lemma {:induction false} LeavesFromKids(s: Tree, i: nat, t: Tree, j: nat)
    requires s.Node? && t.Node? && i <= |s.kids| && j <= |t.kids| && s.kids[i..] == t.kids[j..]
    ensures LeavesFrom(s, i) == LeavesFrom(t, j)
    decreases |s.kids| - i
  {
    assert |s.kids[i..]| == |t.kids[j..]|;
    if i < |s.kids| {
      assert s.kids[i] == s.kids[i..][0] == t.kids[j];
      assert s.kids[i + 1..] == s.kids[i..][1..] == t.kids[j + 1..];
      LeavesFromKids(s, i + 1, t, j + 1);
    }
  }

  lemma LeavesOfNode(t: Tree)
    requires t.Node?
    ensures Leaves(t) == LeavesOf(t.kids)
  {
    LeavesFromKids(t, 0, Node(0, [], t.kids), 0);
  }

  lemma LeavesOfFirst(kids: seq<Tree>)
    requires kids != []
    ensures LeavesOf(kids) == Leaves(kids[0]) + LeavesOf(kids[1..])
  {
    LeavesFromKids(Node(0, [], kids), 1, Node(0, [], kids[1..]), 0);
  }

  lemma {:induction false} LeavesOfConcat(a: seq<Tree>, b: seq<Tree>)
    ensures LeavesOf(a + b) == LeavesOf(a) + LeavesOf(b)
  {
    if a == [] {
      assert a + b == b;
    } else {
      LeavesOfFirst(a);
      LeavesOfFirst(a + b);
      assert (a + b)[1..] == a[1..] + b;
      LeavesOfConcat(a[1..], b);
    }
  }

  lemma LeavesOfOne(t: Tree)
    ensures LeavesOf([t]) == Leaves(t)
  {
    LeavesOfFirst([t]);
  }

  /** The leaves of a list of trees around one of them. */
  lemma LeavesAround(kids: seq<Tree>, k: nat, kid: Tree)
    requires k < |kids|
    ensures LeavesOf(kids[k := kid]) == LeavesOf(kids[..k]) + Leaves(kid) + LeavesOf(kids[k + 1..])
  {
    var r := kids[k := kid];
    assert r == kids[..k] + [kid] + kids[k + 1..];
    LeavesOfConcat(kids[..k] + [kid], kids[k + 1..]);
    LeavesOfConcat(kids[..k], [kid]);
    LeavesOfOne(kid);
  }

  /** ... and when it has got a new right neighbour. */
  lemma LeavesInsert(kids: seq<Tree>, k: nat, sib: Tree)
    requires k < |kids|
    ensures LeavesOf(InsertAt(kids, k + 1, sib)) == LeavesOf(kids[..k]) + Leaves(kids[k]) + Leaves(sib) + LeavesOf(kids[k + 1..])
  {
    LeavesOfConcat(kids[..k + 1] + [sib], kids[k + 1..]);
    LeavesOfConcat(kids[..k + 1], [sib]);
    assert kids[..k + 1] == kids[..k] + [kids[k]];
    LeavesOfConcat(kids[..k], [kids[k]]);
    LeavesOfOne(kids[k]);
    LeavesOfOne(sib);
  }

  ghost function OutcomeLeaves(r: Outcome): seq<Tree> {
    Leaves(r.tree) + (if r.split.Whole? then [] else Leaves(r.split.right))
  }

  lemma LeavesCut(id: nat, keys: seq<Key>, kids: seq<Tree>, id': nat, keys': seq<Key>, kids': seq<Tree>)
    ensures Leaves(Node(id, keys, kids)) + Leaves(Node(id', keys', kids')) == LeavesOf(kids + kids')
  {
    LeavesOfNode(Node(id, keys, kids));
    LeavesOfNode(Node(id', keys', kids'));
    LeavesOfConcat(kids, kids');
  }

  /** However a node takes a new sibling in, it comes right after the child that split it off. */
  lemma AdoptLeaves(id: nat, keys: seq<Key>, kids: seq<Tree>, k: nat, up: Key, sib: Tree, key: Key, next: nat)
    requires k <= |keys| <= M && |kids| == |keys| + 1 && (Lone(sib) ==> k == |keys|)
    requires |keys| == M && !Lone(sib) ==> ((if sib.Leaf? then up else key) >= keys[HALF - 1] <==> k >= HALF)
    ensures OutcomeLeaves(Adopt(id, keys, kids, k, up, sib, key, next)) == LeavesOf(InsertAt(kids, k + 1, sib))
  {
    if |keys| < M {
      LeavesOfNode(Node(id, InsertAt(keys, k, up), InsertAt(kids, k + 1, sib)));
    } else if Lone(sib) {
      assert kids + [sib] == InsertAt(kids, k + 1, sib);
      LeavesCut(id, keys, kids, next, [], [sib]);
    } else if k >= HALF {
      AdoptLeavesAbove(id, keys, kids, k, up, sib, key, next);
    } else {
      AdoptLeavesBelow(id, keys, kids, k, up, sib, key, next);
    }
  }

  lemma AdoptLeavesAbove(id: nat, keys: seq<Key>, kids: seq<Tree>, k: nat, up: Key, sib: Tree, key: Key, next: nat)
    requires HALF <= k <= |keys| == M && |kids| == |keys| + 1 && !Lone(sib) && (if sib.Leaf? then up else key) >= keys[HALF - 1]
    ensures OutcomeLeaves(Adopt(id, keys, kids, k, up, sib, key, next)) == LeavesOf(InsertAt(kids, k + 1, sib))
  {
    CutAbove(kids, k, sib);
    LeavesCut(id, keys[..HALF - 1], kids[..HALF], next, InsertAt(keys[HALF..], k - HALF, up), InsertAt(kids[HALF..], k - HALF + 1, sib));
  }

  lemma AdoptLeavesBelow(id: nat, keys: seq<Key>, kids: seq<Tree>, k: nat, up: Key, sib: Tree, key: Key, next: nat)
    requires k < HALF && |keys| == M && |kids| == |keys| + 1 && !Lone(sib) && (if sib.Leaf? then up else key) < keys[HALF - 1]
    ensures OutcomeLeaves(Adopt(id, keys, kids, k, up, sib, key, next)) == LeavesOf(InsertAt(kids, k + 1, sib))
  {
    CutBelow(kids, k, sib);
    LeavesCut(id, InsertAt(keys[..HALF - 1], k, up), InsertAt(kids[..HALF], k + 1, sib), next, keys[HALF..], kids[HALF..]);
  }

  lemma CutAbove(kids: seq<Tree>, k: nat, sib: Tree)
    requires HALF <= k < |kids|
    ensures kids[..HALF] + InsertAt(kids[HALF..], k - HALF + 1, sib) == InsertAt(kids, k + 1, sib)
  {
  }

  lemma CutBelow(kids: seq<Tree>, k: nat, sib: Tree)
    requires k < HALF <= |kids|
    ensures InsertAt(kids[..HALF], k + 1, sib) + kids[HALF..] == InsertAt(kids, k + 1, sib)
  {
  }

  lemma AbsorbLeaves(t: Tree, d: nat, k: nat, key: Key, r: Outcome, lo: nat, hi: nat)
    requires NodeOk(t, d, lo, hi) && k <= |t.keys| && Low(t.keys, lo, k) <= key < High(t.keys, hi, k)
    requires OutcomeOk(r, d, k == |t.keys|, Low(t.keys, lo, k), High(t.keys, hi, k))
    ensures OutcomeLeaves(Absorb(t, k, key, r)) == LeavesOf(t.kids[..k]) + OutcomeLeaves(r) + LeavesOf(t.kids[k + 1..])
  {
    var kids := t.kids[k := r.tree];
    if r.split.Whole? {
      LeavesAround(t.kids, k, r.tree);
      LeavesOfNode(Node(t.id, t.keys, kids));
    } else {
      assert kids[..k] == t.kids[..k] && kids[k + 1..] == t.kids[k + 1..];
      AdoptLeaves(t.id, t.keys, kids, k, r.split.up, r.split.right, key, r.next);
      LeavesInsert(kids, k, r.split.right);
    }
  }

  // ---------------------------------------------------------------------------------------------
  // The chain is ordered
  // ---------------------------------------------------------------------------------------------

  ghost predicate AllIn(ls: seq<Tree>, lo: nat, hi: nat) {
    forall i | 0 <= i < |ls| :: InRange(ls[i].keys, lo, hi)
  }

  /** Non-empty leaves, ascending within and from leaf to leaf. */
  ghost predicate Chain(ls: seq<Tree>) {
    && (forall i | 0 <= i < |ls| :: LeafOk(ls[i], 0, LIMIT))
    && forall i, j | 0 <= i < j < |ls| :: Before(ls[i], ls[j])
  }

  ghost predicate Before(a: Tree, b: Tree) {
    forall m, n | 0 <= m < |a.keys| && 0 <= n < |b.keys| :: a.keys[m] < b.keys[n]
  }

  lemma ChainConcat(a: seq<Tree>, b: seq<Tree>, lo: nat, mid: nat, hi: nat)
    requires Chain(a) && Chain(b) && AllIn(a, lo, mid) && AllIn(b, mid, hi) && lo <= mid <= hi
    ensures Chain(a + b) && AllIn(a + b, lo, hi)
  {
    forall i, j | 0 <= i < j < |a + b| ensures Before((a + b)[i], (a + b)[j]) {
      if i < |a| <= j { assert InRange(a[i].keys, lo, mid) && InRange(b[j - |a|].keys, mid, hi); }
    }
    forall i | 0 <= i < |a + b| ensures InRange((a + b)[i].keys, lo, hi) {
      if i < |a| { assert InRange(a[i].keys, lo, mid); } else { assert InRange(b[i - |a|].keys, mid, hi); }
    }
  }

  /** The leaves of a well-formed tree are an ordered chain in the tree's range. */
  lemma {:induction false} LeavesChain(t: Tree, d: nat, lo: nat, hi: nat)
    requires WF(t, d, lo, hi) && hi <= LIMIT
    ensures Leaves(t) != [] && Chain(Leaves(t)) && AllIn(Leaves(t), lo, hi)
    decreases d, 0
  {
    if d > 0 {
      NodeIsFan(t, d - 1, lo, hi);
      LeavesOfNode(t);
      FanChain(t.keys, t.kids, d - 1, lo, hi);
    }
  }

  lemma {:induction false} FanChain(keys: seq<Key>, kids: seq<Tree>, d: nat, lo: nat, hi: nat)
    requires Fan(keys, kids, d, lo, hi) && hi <= LIMIT
    ensures LeavesOf(kids) != [] && Chain(LeavesOf(kids)) && AllIn(LeavesOf(kids), lo, hi)
    decreases d, 1 + |kids|
  {
    LeavesOfFirst(kids);
    assert Kid(keys, kids, d, lo, hi, 0);
    LeavesChain(kids[0], d, lo, High(keys, hi, 0));
    if keys == [] {
      assert LeavesOf(kids[1..]) == [];
    } else {
      FanCut(keys, kids, d, lo, hi, 0);
      FanChain(keys[1..], kids[1..], d, keys[0], hi);
      ChainConcat(Leaves(kids[0]), LeavesOf(kids[1..]), lo, keys[0], hi);
    }
  }

  /** The parts of a fan left and right of one child. */
  lemma FanSides(keys: seq<Key>, kids: seq<Tree>, d: nat, lo: nat, hi: nat, k: nat)
    requires Fan(keys, kids, d, lo, hi) && hi <= LIMIT && k <= |keys|
    ensures AllIn(LeavesOf(kids[..k]), lo, Low(keys, lo, k)) && AllIn(LeavesOf(kids[k + 1..]), High(keys, hi, k), hi)
    ensures LeavesOf(kids[k + 1..]) == [] <==> k == |keys|
  {
    if 0 < k {
      FanCut(keys, kids, d, lo, hi, k - 1);
      assert kids[..k - 1 + 1] == kids[..k];
      FanChain(keys[..k - 1], kids[..k], d, lo, keys[k - 1]);
    } else {
      assert LeavesOf(kids[..k]) == [];
    }
    if k < |keys| {
      FanCut(keys, kids, d, lo, hi, k);
      FanChain(keys[k + 1..], kids[k + 1..], d, keys[k], hi);
    } else {
      assert kids[k + 1..] == [];
    }
  }

  // ---------------------------------------------------------------------------------------------
  // Insertion changes one leaf of the chain
  // ---------------------------------------------------------------------------------------------

  /** If the key is in the chain at all, it is in the j-th leaf. */
  ghost predicate Routed(ls: seq<Tree>, j: nat, key: Key) {
    && j < |ls|
    && (forall i, m | 0 <= i < j && 0 <= m < |ls[i].keys| :: ls[i].keys[m] < key)
    && (forall i, m | j < i < |ls| && 0 <= m < |ls[i].keys| :: key < ls[i].keys[m])
  }

  ghost function LeafPair(r: Outcome): seq<Tree> {
    [r.tree] + (if r.split.Whole? then [] else [r.split.right])
  }

  /** The chain ls has become ls': its j-th leaf, to which the key leads, has been replaced by pair; the
      other leaves and their order are the same. end says that the leaf is the last of all, as far as
      this part of the tree is the last part. */
  ghost predicate Grown(ls: seq<Tree>, ls': seq<Tree>, j: nat, key: Key, leaf: Tree, pair: seq<Tree>, end: bool, last: bool) {
    && Routed(ls, j, key) && ls[j] == leaf && end == (last && j == |ls| - 1)
    && ls' == ls[..j] + pair + ls[j + 1..]
  }

  lemma LeafGrown(t: Tree, r: Outcome, key: Key, last: bool)
    requires t.Leaf? && r.tree.Leaf? && (r.split.SplitOff? ==> r.split.right.Leaf?)
    ensures Grown(Leaves(t), OutcomeLeaves(r), 0, key, t, LeafPair(r), last, last)
  {
    assert r.split.SplitOff? ==> Leaves(r.split.right) == [r.split.right];
  }

  lemma SpliceAround<T>(a: seq<T>, ls: seq<T>, b: seq<T>, j: nat, mid: seq<T>)
    requires j < |ls|
    ensures (a + ls + b)[|a| + j] == ls[j]
    ensures (a + ls + b)[..|a| + j] + mid + (a + ls + b)[|a| + j + 1..] == a + (ls[..j] + mid + ls[j + 1..]) + b
  {
    assert (a + ls + b)[..|a| + j] == a + ls[..j];
    assert (a + ls + b)[|a| + j + 1..] == ls[j + 1..] + b;
  }

  lemma RoutedAround(a: seq<Tree>, ls: seq<Tree>, b: seq<Tree>, j: nat, key: Key, lo: nat, hi: nat)
    requires Routed(ls, j, key) && lo <= key < hi && AllIn(a, 0, lo) && AllIn(b, hi, LIMIT)
    ensures Routed(a + ls + b, |a| + j, key)
  {
    var all := a + ls + b;
    forall i, m | 0 <= i < |a| + j && 0 <= m < |all[i].keys| ensures all[i].keys[m] < key {
      if i < |a| { assert InRange(a[i].keys, 0, lo); } else { assert all[i] == ls[i - |a|]; }
    }
    forall i, m | |a| + j < i < |all| && 0 <= m < |all[i].keys| ensures key < all[i].keys[m] {
      if i < |a| + |ls| { assert all[i] == ls[i - |a|]; } else { assert InRange(b[i - |a| - |ls|].keys, hi, LIMIT); }
    }
  }

  lemma GrownAround(all: seq<Tree>, all': seq<Tree>, a: seq<Tree>, ls: seq<Tree>, b: seq<Tree>, ls': seq<Tree>, j: nat, key: Key,
                    leaf: Tree, pair: seq<Tree>, end: bool, last: bool, lastHere: bool, lo: nat, hi: nat)
    requires all == a + ls + b && all' == a + ls' + b && lastHere == (last && b == [])
    requires Grown(ls, ls', j, key, leaf, pair, end, lastHere)
    requires lo <= key < hi && AllIn(a, 0, lo) && AllIn(b, hi, LIMIT)
    ensures Grown(all, all', |a| + j, key, leaf, pair, end, last)
  {
    RoutedAround(a, ls, b, j, key, lo, hi);
    SpliceAround(a, ls, b, j, pair);
  }

  /** What happens to the chain of the child that key leads to happens to the chain of the node. */
  lemma AbsorbGrown(t: Tree, d: nat, k: nat, key: Key, r: Outcome, j: nat, leaf: Tree, pair: seq<Tree>, end: bool, last: bool, lo: nat, hi: nat)
    requires NodeOk(t, d, lo, hi) && hi <= LIMIT && k <= |t.keys| && Low(t.keys, lo, k) <= key < High(t.keys, hi, k)
    requires OutcomeOk(r, d, last && k == |t.keys|, Low(t.keys, lo, k), High(t.keys, hi, k))
    requires Grown(Leaves(t.kids[k]), OutcomeLeaves(r), j, key, leaf, pair, end, last && k == |t.keys|)
    ensures Grown(Leaves(t), OutcomeLeaves(Absorb(t, k, key, r)), |LeavesOf(t.kids[..k])| + j, key, leaf, pair, end, last)
  {
    NodeSides(t, d, lo, hi, k);
    AbsorbLeaves(t, d, k, key, r, lo, hi);
    GrownAround(Leaves(t), OutcomeLeaves(Absorb(t, k, key, r)), LeavesOf(t.kids[..k]), Leaves(t.kids[k]), LeavesOf(t.kids[k + 1..]),
                OutcomeLeaves(r), j, key, leaf, pair, end, last, last && k == |t.keys|, Low(t.keys, lo, k), High(t.keys, hi, k));
  }

  /** The leaves of a node, seen from one of its children. */
  lemma NodeSides(t: Tree, d: nat, lo: nat, hi: nat, k: nat)
    requires NodeOk(t, d, lo, hi) && hi <= LIMIT && k <= |t.keys|
    ensures Leaves(t) == LeavesOf(t.kids[..k]) + Leaves(t.kids[k]) + LeavesOf(t.kids[k + 1..])
    ensures AllIn(LeavesOf(t.kids[..k]), 0, Low(t.keys, lo, k)) && AllIn(LeavesOf(t.kids[k + 1..]), High(t.keys, hi, k), LIMIT)
    ensures LeavesOf(t.kids[k + 1..]) == [] <==> k == |t.keys|
  {
    FanSides(t.keys, t.kids, d, lo, hi, k);
    LeavesOfNode(t);
    LeavesAround(t.kids, k, t.kids[k]);
    assert t.kids[k := t.kids[k]] == t.kids;
    WidenAll(LeavesOf(t.kids[..k]), lo, Low(t.keys, lo, k), 0, Low(t.keys, lo, k));
    WidenAll(LeavesOf(t.kids[k + 1..]), High(t.keys, hi, k), hi, High(t.keys, hi, k), LIMIT);
  }

  lemma WidenAll(ls: seq<Tree>, lo: nat, hi: nat, lo': nat, hi': nat)
    requires AllIn(ls, lo, hi) && lo' <= lo && hi <= hi'
    ensures AllIn(ls, lo', hi')
  {
    forall i | 0 <= i < |ls| ensures InRange(ls[i].keys, lo', hi') { assert InRange(ls[i].keys, lo, hi); }
  }
}
