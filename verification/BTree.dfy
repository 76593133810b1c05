/** The B+ tree as a value: what one insertion makes of a tree, and what it means.

    A leaf or node is given by its identity and its live entries; the arrays and links it is stored in
    are the business of BTreeStore. Nodes split in the middle, except that an insertion at the far
    right end starts a new rightmost node of its own, so that inner nodes may have one child and no key. */
module BTree {

  const LIMIT: nat := 0x1_0000_0000_0000_0000

  type Key = k: nat | k < LIMIT

  /** The identity of the record that a key leads to. */
  type Val = nat

  /** Entries of a leaf, and keys of an inner node. */
  const M: nat := 15

  datatype Tree = Leaf(id: nat, keys: seq<Key>, vals: seq<Val>) | Node(id: nat, keys: seq<Key>, kids: seq<Tree>)

  // ---------------------------------------------------------------------------------------------
  // Searching and splicing
  // ---------------------------------------------------------------------------------------------

  /** The first position whose key is at least key. */
  function LowerBound(keys: seq<Key>, key: Key): (k: nat)
    ensures k <= |keys| && (forall j | 0 <= j < k :: keys[j] < key) && (k < |keys| ==> key <= keys[k])
  {
    if keys == [] || key <= keys[0] then 0 else 1 + LowerBound(keys[1..], key)
  }

  /** The first position whose key is greater than key. */
  function UpperBound(keys: seq<Key>, key: Key): (k: nat)
    ensures k <= |keys| && (forall j | 0 <= j < k :: keys[j] <= key) && (k < |keys| ==> key < keys[k])
  {
    if keys == [] || key < keys[0] then 0 else 1 + UpperBound(keys[1..], key)
  }

  function InsertAt<T>(s: seq<T>, k: nat, x: T): (r: seq<T>)
    requires k <= |s|
    ensures |r| == |s| + 1 && r[k] == x
    ensures (forall j | 0 <= j < k :: r[j] == s[j]) && (forall j | k < j < |r| :: r[j] == s[j - 1])
  {
    s[..k] + [x] + s[k..]
  }

  ghost predicate Ascending(keys: seq<Key>) {
    forall i, j | 0 <= i < j < |keys| :: keys[i] < keys[j]
  }

  // ---------------------------------------------------------------------------------------------
  // Insertion
  // ---------------------------------------------------------------------------------------------

  /** A node that could not take its new entry leaves the upper part of it to a new right sibling, whose
      keys start at up. */
  datatype Split = Whole | SplitOff(up: Key, right: Tree)

  /** next is the identity that the next new node will get. */
  datatype Outcome = Outcome(tree: Tree, split: Split, next: nat)

  const HALF: nat := (M + 1) / 2

  function LeafIns(t: Tree, key: Key, v: Val, last: bool, next: nat): Outcome
    requires t.Leaf? && |t.keys| == |t.vals| <= M
  {
    var k := LowerBound(t.keys, key);
    if k < |t.keys| && t.keys[k] == key then Outcome(t, Whole, next)
    else if |t.keys| < M then Outcome(Leaf(t.id, InsertAt(t.keys, k, key), InsertAt(t.vals, k, v)), Whole, next)
    else if last && k == |t.keys| then Outcome(t, SplitOff(key, Leaf(next, [key], [v])), next + 1)
    else LeafCut(t, k, key, v, next)
  }

  /** A full leaf is cut in two, and the new entry goes to the half it belongs to. */
  function LeafCut(t: Tree, k: nat, key: Key, v: Val, next: nat): Outcome
    requires t.Leaf? && k <= |t.keys| == |t.vals| == M
  {
    var left := Leaf(t.id, t.keys[..HALF], t.vals[..HALF]);
    var right := Leaf(next, t.keys[HALF..], t.vals[HALF..]);
    if k < HALF then
      Outcome(left.(keys := InsertAt(left.keys, k, key), vals := InsertAt(left.vals, k, v)), SplitOff(right.keys[0], right), next + 1)
    else
      var right' := right.(keys := InsertAt(right.keys, k - HALF, key), vals := InsertAt(right.vals, k - HALF, v));
      Outcome(left, SplitOff(right'.keys[0], right'), next + 1)
  }

  /** A new sibling that was started at the far right end. */
  predicate Lone(t: Tree) {
    if t.Leaf? then |t.keys| == 1 else |t.keys| == 0
  }

  /** Node t, whose k-th child has become kids[k] and split off sib, takes sib in. */
  function Adopt(id: nat, keys: seq<Key>, kids: seq<Tree>, k: nat, up: Key, sib: Tree, key: Key, next: nat): Outcome
    requires k <= |keys| <= M && |kids| == |keys| + 1
  {
    if |keys| < M then Outcome(Node(id, InsertAt(keys, k, up), InsertAt(kids, k + 1, sib)), Whole, next)
    else if Lone(sib) then Outcome(Node(id, keys, kids), SplitOff(up, Node(next, [], [sib])), next + 1)
    else
      var left := Node(id, keys[..HALF - 1], kids[..HALF]);
      var right := Node(next, keys[HALF..], kids[HALF..]);
      var mid := keys[HALF - 1];
      if (if sib.Leaf? then up else key) >= mid then
        var j := if k >= HALF then k - HALF else 0;
        Outcome(left, SplitOff(mid, right.(keys := InsertAt(right.keys, j, up), kids := InsertAt(right.kids, j + 1, sib))), next + 1)
      else if k < HALF then
        Outcome(left.(keys := InsertAt(left.keys, k, up), kids := InsertAt(left.kids, k + 1, sib)), SplitOff(mid, right), next + 1)
      else Outcome(left, SplitOff(mid, right), next)
  }

  /** Every node has as many children as it needs, and no more entries than it can hold. */
  ghost predicate Shaped(t: Tree, d: nat)
    decreases d
  {
    if d == 0 then t.Leaf? && |t.keys| == |t.vals| <= M
    else t.Node? && |t.keys| <= M && |t.kids| == |t.keys| + 1 && forall i | 0 <= i < |t.kids| :: Shaped(t.kids[i], d - 1)
  }

  /** What a node makes of what has become of its k-th child. */
  function Absorb(t: Tree, k: nat, key: Key, r: Outcome): Outcome
    requires t.Node? && k <= |t.keys| <= M && |t.kids| == |t.keys| + 1
  {
    var kids := t.kids[k := r.tree];
    if r.split.Whole? then Outcome(Node(t.id, t.keys, kids), Whole, r.next)
    else Adopt(t.id, t.keys, kids, k, r.split.up, r.split.right, key, r.next)
  }

  // ---------------------------------------------------------------------------------------------
  // Well-formed trees
  // ---------------------------------------------------------------------------------------------

  /** The range of the i-th child. */
  function Low(keys: seq<Key>, lo: nat, i: nat): nat
    requires i <= |keys|
  {
    if i == 0 then lo else keys[i - 1]
  }

  function High(keys: seq<Key>, hi: nat, i: nat): nat
    requires i <= |keys|
  {
    if i < |keys| then keys[i] else hi
  }

  ghost predicate Between(keys: seq<Key>, lo: nat, hi: nat) {
    Ascending(keys) && lo < hi && forall i | 0 <= i < |keys| :: lo < keys[i] < hi
  }

  ghost predicate InRange(keys: seq<Key>, lo: nat, hi: nat) {
    forall i | 0 <= i < |keys| :: lo <= keys[i] < hi
  }

  ghost predicate LeafOk(t: Tree, lo: nat, hi: nat) {
    t.Leaf? && 0 < |t.keys| == |t.vals| <= M && Ascending(t.keys) && InRange(t.keys, lo, hi)
  }

  /** Uniform depth, ascending keys, separators strictly inside the range they separate, keys of each
      leaf inside the leaf's range, and no empty leaf. */
  ghost predicate WF(t: Tree, d: nat, lo: nat, hi: nat)
    decreases d
  {
    if d == 0 then LeafOk(t, lo, hi)
    else
      && t.Node? && |t.keys| <= M && |t.kids| == |t.keys| + 1 && Between(t.keys, lo, hi)
      && forall i | 0 <= i < |t.kids| :: WF(t.kids[i], d - 1, Low(t.keys, lo, i), High(t.keys, hi, i))
  }

  /** The same for the parts of a node. */
  ghost predicate Fan(keys: seq<Key>, kids: seq<Tree>, d: nat, lo: nat, hi: nat) {
    && |kids| == |keys| + 1 && Between(keys, lo, hi)
    && forall i | 0 <= i < |kids| :: Kid(keys, kids, d, lo, hi, i)
  }

  ghost predicate Kid(keys: seq<Key>, kids: seq<Tree>, d: nat, lo: nat, hi: nat, i: nat)
    requires |kids| == |keys| + 1 && i < |kids|
  {
    WF(kids[i], d, Low(keys, lo, i), High(keys, hi, i))
  }

  ghost predicate NodeOk(t: Tree, d: nat, lo: nat, hi: nat) {
    t.Node? && |t.keys| <= M && Fan(t.keys, t.kids, d, lo, hi)
  }

  lemma NodeIsFan(t: Tree, d: nat, lo: nat, hi: nat)
    ensures WF(t, d + 1, lo, hi) <==> NodeOk(t, d, lo, hi)
  {
    if NodeOk(t, d, lo, hi) {
      forall i | 0 <= i < |t.kids| ensures WF(t.kids[i], d, Low(t.keys, lo, i), High(t.keys, hi, i)) {
        assert Kid(t.keys, t.kids, d, lo, hi, i);
      }
    }
  }

  lemma {:induction false} WFShaped(t: Tree, d: nat, lo: nat, hi: nat)
    requires WF(t, d, lo, hi)
    ensures Shaped(t, d)
    decreases d
  {
    if d > 0 {
      forall i | 0 <= i < |t.kids| ensures Shaped(t.kids[i], d - 1) {
        WFShaped(t.kids[i], d - 1, Low(t.keys, lo, i), High(t.keys, hi, i));
      }
    }
  }

  /** A range may be widened. */
  lemma {:induction false} Widen(t: Tree, d: nat, lo: nat, hi: nat, lo': nat, hi': nat)
    requires WF(t, d, lo, hi) && lo' <= lo && hi <= hi'
    ensures WF(t, d, lo', hi')
    decreases d
  {
    if d > 0 {
      forall i | 0 <= i < |t.kids| ensures WF(t.kids[i], d - 1, Low(t.keys, lo', i), High(t.keys, hi', i)) {
        Widen(t.kids[i], d - 1, Low(t.keys, lo, i), High(t.keys, hi, i), Low(t.keys, lo', i), High(t.keys, hi', i));
      }
    }
  }

  // ---------------------------------------------------------------------------------------------
  // Fans
  // ---------------------------------------------------------------------------------------------

  lemma FanReplace(keys: seq<Key>, kids: seq<Tree>, d: nat, lo: nat, hi: nat, k: nat, kid: Tree)
    requires Fan(keys, kids, d, lo, hi) && k < |kids| && WF(kid, d, Low(keys, lo, k), High(keys, hi, k))
    ensures Fan(keys, kids[k := kid], d, lo, hi)
  {
    var kids' := kids[k := kid];
    forall i | 0 <= i < |kids| ensures Kid(keys, kids', d, lo, hi, i) {
      assert Kid(keys, kids, d, lo, hi, i);
    }
  }

  /** The k-th child's range is cut at up, and sib takes the upper part. */
  lemma FanInsert(keys: seq<Key>, kids: seq<Tree>, d: nat, lo: nat, hi: nat, k: nat, up: Key, sib: Tree)
    requires Fan(keys, kids, d, lo, hi) && k <= |keys|
    requires Low(keys, lo, k) < up < High(keys, hi, k)
    requires WF(kids[k], d, Low(keys, lo, k), up) && WF(sib, d, up, High(keys, hi, k))
    ensures Fan(InsertAt(keys, k, up), InsertAt(kids, k + 1, sib), d, lo, hi)
  {
    var keys', kids' := InsertAt(keys, k, up), InsertAt(kids, k + 1, sib);
    assert Between(keys', lo, hi) by {
      forall i, j | 0 <= i < j < |keys'| ensures keys'[i] < keys'[j] {
        if i == k { assert keys[j - 1] >= High(keys, hi, k); } else if j == k { assert keys[i] <= Low(keys, lo, k); }
      }
      forall i | 0 <= i < |keys'| ensures lo < keys'[i] < hi { }
    }
    forall i | 0 <= i < |kids'| ensures Kid(keys', kids', d, lo, hi, i) {
      if i <= k { assert Kid(keys, kids, d, lo, hi, i); } else if i > k + 1 { assert Kid(keys, kids, d, lo, hi, i - 1); }
    }
  }

  lemma FanCut(keys: seq<Key>, kids: seq<Tree>, d: nat, lo: nat, hi: nat, m: nat)
    requires Fan(keys, kids, d, lo, hi) && m < |keys|
    ensures Fan(keys[..m], kids[..m + 1], d, lo, keys[m])
    ensures Fan(keys[m + 1..], kids[m + 1..], d, keys[m], hi)
  {
    var keys1, kids1, keys2, kids2 := keys[..m], kids[..m + 1], keys[m + 1..], kids[m + 1..];
    forall i | 0 <= i < m + 1 ensures Kid(keys1, kids1, d, lo, keys[m], i) { assert Kid(keys, kids, d, lo, hi, i); }
    forall i | 0 <= i < |kids| - m - 1 ensures Kid(keys2, kids2, d, keys[m], hi, i) { assert Kid(keys, kids, d, lo, hi, m + 1 + i); }
  }

  // ---------------------------------------------------------------------------------------------
  // Insertion keeps trees well formed
  // ---------------------------------------------------------------------------------------------

  /** The two parts of a split, or the whole, fill the range. */
  ghost predicate Fills(r: Outcome, d: nat, lo: nat, hi: nat) {
    if r.split.Whole? then WF(r.tree, d, lo, hi)
    else lo < r.split.up < hi && WF(r.tree, d, lo, r.split.up) && WF(r.split.right, d, r.split.up, hi)
  }

  ghost predicate LeavesFill(r: Outcome, lo: nat, hi: nat) {
    if r.split.Whole? then LeafOk(r.tree, lo, hi)
    else lo < r.split.up < hi && LeafOk(r.tree, lo, r.split.up) && LeafOk(r.split.right, r.split.up, hi)
  }

  ghost predicate NodesFill(r: Outcome, d: nat, lo: nat, hi: nat) {
    if r.split.Whole? then NodeOk(r.tree, d, lo, hi)
    else lo < r.split.up < hi && NodeOk(r.tree, d, lo, r.split.up) && NodeOk(r.split.right, d, r.split.up, hi)
  }

  lemma NodesFillRange(r: Outcome, d: nat, lo: nat, hi: nat)
    requires NodesFill(r, d, lo, hi)
    ensures Fills(r, d + 1, lo, hi)
  {
    if r.split.Whole? {
      NodeIsFan(r.tree, d, lo, hi);
    } else {
      NodeIsFan(r.tree, d, lo, r.split.up);
      NodeIsFan(r.split.right, d, r.split.up, hi);
    }
  }

  lemma AscendingInsert(keys: seq<Key>, k: nat, key: Key)
    requires Ascending(keys) && k <= |keys| && (forall j | 0 <= j < k :: keys[j] < key) && (k < |keys| ==> key < keys[k])
    ensures Ascending(InsertAt(keys, k, key))
  {
  }

  lemma LeafInsOk(t: Tree, key: Key, v: Val, last: bool, next: nat, lo: nat, hi: nat)
    requires LeafOk(t, lo, hi) && lo <= key < hi
    ensures var r := LeafIns(t, key, v, last, next);
            LeavesFill(r, lo, hi) && (r.split.SplitOff? && Lone(r.split.right) ==> last)
  {
    var k := LowerBound(t.keys, key);
    if k < |t.keys| && t.keys[k] == key {
    } else if |t.keys| < M {
      AscendingInsert(t.keys, k, key);
    } else if last && k == |t.keys| {
    } else {
      LeafCutOk(t, k, key, v, next, lo, hi);
    }
  }

  lemma LeafCutOk(t: Tree, k: nat, key: Key, v: Val, next: nat, lo: nat, hi: nat)
    requires LeafOk(t, lo, hi) && |t.keys| == M && lo <= key < hi && k <= M
    requires (forall j | 0 <= j < k :: t.keys[j] < key) && (k < M ==> key < t.keys[k])
    ensures var r := LeafCut(t, k, key, v, next);
            r.split.SplitOff? && LeavesFill(r, lo, hi) && !Lone(r.split.right)
  {
    HalvesOk(t.keys, lo, hi);
    if k < HALF { LowerHalf(t.keys, k, key, lo); } else { UpperHalf(t.keys, k, key, hi); }
  }

  lemma HalvesOk(keys: seq<Key>, lo: nat, hi: nat)
    requires |keys| == M && Ascending(keys) && InRange(keys, lo, hi)
    ensures Ascending(keys[..HALF]) && InRange(keys[..HALF], lo, keys[HALF])
    ensures Ascending(keys[HALF..]) && InRange(keys[HALF..], keys[HALF], hi) && lo < keys[HALF] < hi
    ensures InRange(keys[..HALF], lo, keys[HALF - 1] + 1) && lo <= keys[HALF - 1]
  {
    assert keys[0] < keys[HALF];
  }

  lemma LowerHalf(keys: seq<Key>, k: nat, key: Key, lo: nat)
    requires |keys| == M && Ascending(keys) && k < HALF && lo <= key && InRange(keys[..HALF], lo, keys[HALF])
    requires (forall j | 0 <= j < k :: keys[j] < key) && key < keys[k]
    ensures var r := InsertAt(keys[..HALF], k, key); Ascending(r) && InRange(r, lo, keys[HALF])
  {
    AscendingInsert(keys[..HALF], k, key);
  }

  lemma UpperHalf(keys: seq<Key>, k: nat, key: Key, hi: nat)
    requires |keys| == M && Ascending(keys) && HALF <= k <= M && key < hi && InRange(keys[HALF..], keys[HALF], hi)
    requires (forall j | 0 <= j < k :: keys[j] < key) && (k < M ==> key < keys[k])
    ensures var r := InsertAt(keys[HALF..], k - HALF, key);
            Ascending(r) && InRange(r, r[0], hi) && keys[HALF - 1] < r[0] < hi
  {
    var upper := keys[HALF..];
    var r := InsertAt(upper, k - HALF, key);
    AscendingInsert(upper, k - HALF, key);
    assert r[0] == if k == HALF then key else upper[0];
    assert upper[0] == keys[HALF] && keys[HALF - 1] < keys[HALF];
  }

  /** The k-th child's range is cut at up, sib has the upper part, and the new key is in the range. */
  ghost predicate Fits(keys: seq<Key>, kids: seq<Tree>, k: nat, up: Key, sib: Tree, key: Key, d: nat, lo: nat, hi: nat)
    requires k <= |keys| && |kids| == |keys| + 1
  {
    && Low(keys, lo, k) < up < High(keys, hi, k) && Low(keys, lo, k) <= key < High(keys, hi, k)
    && WF(kids[k], d, Low(keys, lo, k), up) && WF(sib, d, up, High(keys, hi, k))
  }

  lemma AdoptOk(id: nat, keys: seq<Key>, kids: seq<Tree>, k: nat, up: Key, sib: Tree, key: Key, next: nat, d: nat, lo: nat, hi: nat)
    requires Fan(keys, kids, d, lo, hi) && k <= |keys| <= M && Fits(keys, kids, k, up, sib, key, d, lo, hi)
    requires Lone(sib) ==> k == |keys|
    ensures var r := Adopt(id, keys, kids, k, up, sib, key, next);
            NodesFill(r, d, lo, hi) && (r.split.SplitOff? && Lone(r.split.right) ==> Lone(sib))
  {
    if |keys| < M {
      FanInsert(keys, kids, d, lo, hi, k, up, sib);
    } else if Lone(sib) {
      AdoptLone(keys, kids, d, lo, hi, up, sib);
    } else if k >= HALF {
      AdoptUpper(keys, kids, k, up, sib, key, d, lo, hi);
    } else {
      AdoptLower(keys, kids, k, up, sib, key, d, lo, hi);
    }
  }

  /** A full node is cut at its middle key, and sib goes to the half it belongs to. */
  lemma AdoptUpper(keys: seq<Key>, kids: seq<Tree>, k: nat, up: Key, sib: Tree, key: Key, d: nat, lo: nat, hi: nat)
    requires Fan(keys, kids, d, lo, hi) && HALF <= k <= |keys| == M && Fits(keys, kids, k, up, sib, key, d, lo, hi)
    ensures lo < keys[HALF - 1] < hi && keys[HALF - 1] <= key && keys[HALF - 1] < up
    ensures Fan(keys[..HALF - 1], kids[..HALF], d, lo, keys[HALF - 1])
    ensures Fan(InsertAt(keys[HALF..], k - HALF, up), InsertAt(kids[HALF..], k - HALF + 1, sib), d, keys[HALF - 1], hi)
  {
    FanCut(keys, kids, d, lo, hi, HALF - 1);
    var mid := keys[HALF - 1];
    assert mid <= Low(keys, lo, k);
    assert Low(keys[HALF..], mid, k - HALF) == Low(keys, lo, k) && High(keys[HALF..], hi, k - HALF) == High(keys, hi, k);
    FanInsert(keys[HALF..], kids[HALF..], d, mid, hi, k - HALF, up, sib);
  }

  lemma AdoptLower(keys: seq<Key>, kids: seq<Tree>, k: nat, up: Key, sib: Tree, key: Key, d: nat, lo: nat, hi: nat)
    requires Fan(keys, kids, d, lo, hi) && k < HALF && |keys| == M && Fits(keys, kids, k, up, sib, key, d, lo, hi)
    ensures lo < keys[HALF - 1] < hi && key < keys[HALF - 1] && up < keys[HALF - 1]
    ensures Fan(InsertAt(keys[..HALF - 1], k, up), InsertAt(kids[..HALF], k + 1, sib), d, lo, keys[HALF - 1])
    ensures Fan(keys[HALF..], kids[HALF..], d, keys[HALF - 1], hi)
  {
    FanCut(keys, kids, d, lo, hi, HALF - 1);
    var mid := keys[HALF - 1];
    assert High(keys, hi, k) <= mid;
    assert Low(keys[..HALF - 1], lo, k) == Low(keys, lo, k) && High(keys[..HALF - 1], mid, k) == High(keys, hi, k);
    FanInsert(keys[..HALF - 1], kids[..HALF], d, lo, mid, k, up, sib);
  }

  lemma AdoptLone(keys: seq<Key>, kids: seq<Tree>, d: nat, lo: nat, hi: nat, up: Key, sib: Tree)
    requires Fan(keys, kids, d, lo, hi) && |keys| <= M && Low(keys, lo, |keys|) < up < hi
    requires WF(kids[|keys|], d, Low(keys, lo, |keys|), up) && WF(sib, d, up, hi)
    ensures Fan(keys, kids, d, lo, up) && Fan([], [sib], d, up, hi)
  {
    forall i | 0 <= i < |kids| ensures Kid(keys, kids, d, lo, up, i) { assert Kid(keys, kids, d, lo, hi, i); }
    assert Kid([], [sib], d, up, hi, 0);
    forall i | 0 <= i < |keys| ensures lo < keys[i] < up { assert keys[i] <= Low(keys, lo, |keys|); }
  }

  /** One or two trees that fill the range. A sibling of its own is only started at the far right end. */
  ghost predicate OutcomeOk(r: Outcome, d: nat, last: bool, lo: nat, hi: nat) {
    Fills(r, d, lo, hi) && (r.split.SplitOff? && Lone(r.split.right) ==> last)
  }

  lemma LeafInsWF(t: Tree, key: Key, v: Val, last: bool, next: nat, lo: nat, hi: nat)
    requires WF(t, 0, lo, hi) && lo <= key < hi
    ensures OutcomeOk(LeafIns(t, key, v, last, next), 0, last, lo, hi)
  {
    LeafInsOk(t, key, v, last, next, lo, hi);
  }

  /** A node that takes in what has become of its k-th child stays, or is split into, well-formed trees. */
  lemma AbsorbWF(t: Tree, d: nat, key: Key, k: nat, r: Outcome, last: bool, lo: nat, hi: nat)
    requires NodeOk(t, d, lo, hi) && k <= |t.keys| && Low(t.keys, lo, k) <= key < High(t.keys, hi, k)
    requires OutcomeOk(r, d, last && k == |t.keys|, Low(t.keys, lo, k), High(t.keys, hi, k))
    ensures OutcomeOk(Absorb(t, k, key, r), d + 1, last, lo, hi)
  {
    var kids := t.kids[k := r.tree];
    var l, h := Low(t.keys, lo, k), High(t.keys, hi, k);
    if r.split.Whole? {
      FanReplace(t.keys, t.kids, d, lo, hi, k, r.tree);
      NodeIsFan(Node(t.id, t.keys, kids), d, lo, hi);
    } else {
      Widen(r.tree, d, l, r.split.up, l, h);
      FanReplace(t.keys, t.kids, d, lo, hi, k, r.tree);
      AdoptOk(t.id, t.keys, kids, k, r.split.up, r.split.right, key, r.next, d, lo, hi);
      NodesFillRange(Adopt(t.id, t.keys, kids, k, r.split.up, r.split.right, key, r.next), d, lo, hi);
    }
  }

  /** The child that a key leads to is the one whose range has the key. */
  lemma ChildInRange(t: Tree, d: nat, key: Key, lo: nat, hi: nat)
    requires NodeOk(t, d, lo, hi) && lo <= key < hi
    ensures var k := UpperBound(t.keys, key);
            Low(t.keys, lo, k) <= key < High(t.keys, hi, k) && WF(t.kids[k], d, Low(t.keys, lo, k), High(t.keys, hi, k))
  {
    assert Kid(t.keys, t.kids, d, lo, hi, UpperBound(t.keys, key));
  }

  // ---------------------------------------------------------------------------------------------
  // Where the entries go
  // ---------------------------------------------------------------------------------------------

  function AllKeys(r: Outcome): seq<Key> {
    r.tree.keys + match r.split
                  case Whole => []
                  case SplitOff(up, right) => if right.Leaf? then right.keys else [up] + right.keys
  }

  function AllKids(r: Outcome): seq<Tree>
    requires r.tree.Node? && (r.split.SplitOff? ==> r.split.right.Node?)
  {
    r.tree.kids + if r.split.Whole? then [] else r.split.right.kids
  }

  function AllVals(r: Outcome): seq<Val>
    requires r.tree.Leaf? && (r.split.SplitOff? ==> r.split.right.Leaf?)
  {
    r.tree.vals + if r.split.Whole? then [] else r.split.right.vals
  }

  /** The leaf, or its two parts, have these entries. */
  predicate LeavesHave(r: Outcome, keys: seq<Key>, vals: seq<Val>) {
    r.tree.Leaf? && (r.split.SplitOff? ==> r.split.right.Leaf?) && AllKeys(r) == keys && AllVals(r) == vals
  }

  predicate NewLeaf(r: Outcome, next: nat) {
    && r.split.SplitOff? && r.split.right.Leaf? && r.split.right.id == next && r.next == next + 1
    && r.split.right.keys != [] && r.split.up == r.split.right.keys[0]
  }

  /** Inserting into the half that a position belongs to. */
  lemma CutInsert<T>(s: seq<T>, k: nat, x: T)
    requires HALF <= |s| && k <= |s|
    ensures k <= HALF ==> InsertAt(s[..HALF], k, x) + s[HALF..] == InsertAt(s, k, x)
    ensures HALF <= k ==> s[..HALF] + InsertAt(s[HALF..], k - HALF, x) == InsertAt(s, k, x)
  {
  }

  lemma LeafCutMeans(t: Tree, k: nat, key: Key, v: Val, next: nat)
    requires t.Leaf? && k <= |t.keys| == |t.vals| == M
    ensures var r := LeafCut(t, k, key, v, next);
            LeavesHave(r, InsertAt(t.keys, k, key), InsertAt(t.vals, k, v)) && NewLeaf(r, next) && 8 <= |r.tree.keys| <= 9
  {
    CutInsert(t.keys, k, key);
    CutInsert(t.vals, k, v);
  }

  lemma LeafEndMeans(t: Tree, key: Key, v: Val, next: nat)
    requires t.Leaf? && |t.keys| == |t.vals|
    ensures var r := Outcome(t, SplitOff(key, Leaf(next, [key], [v])), next + 1);
            LeavesHave(r, InsertAt(t.keys, |t.keys|, key), InsertAt(t.vals, |t.vals|, v)) && NewLeaf(r, next)
  {
    assert t.keys + [key] == InsertAt(t.keys, |t.keys|, key) && t.vals + [v] == InsertAt(t.vals, |t.vals|, v);
  }

  /** A leaf and its new right sibling together have the old entries and the new one, in order. Only a full
      leaf is split: into halves, except that a new greatest key of the whole tree goes into a leaf of
      its own and leaves the full one as it is. */
  lemma LeafInsMeans(t: Tree, key: Key, v: Val, last: bool, next: nat)
    requires t.Leaf? && |t.keys| == |t.vals| <= M && Ascending(t.keys)
    ensures var r, k := LeafIns(t, key, v, last, next), LowerBound(t.keys, key);
            if key in t.keys then r == Outcome(t, Whole, next)
            else
              && LeavesHave(r, InsertAt(t.keys, k, key), InsertAt(t.vals, k, v))
              && if |t.keys| < 15 then r.split.Whole? && r.next == next
                 else NewLeaf(r, next) && if last && k == 15 then r.tree == t else 8 <= |r.tree.keys| <= 9
  {
    var k := LowerBound(t.keys, key);
    if key in t.keys {
      var i :| 0 <= i < |t.keys| && t.keys[i] == key;
      assert !(k < i) && !(i < k);
    } else if |t.keys| == M {
      assert k < M ==> t.keys[k] in t.keys;
      if last && k == M { LeafEndMeans(t, key, v, next); } else { LeafCutMeans(t, k, key, v, next); }
    } else {
      assert k < |t.keys| ==> t.keys[k] in t.keys;
    }
  }

  /** The node, or its two parts, have these children in this order, and these keys between them. */
  predicate NodesHave(r: Outcome, keys: seq<Key>, kids: seq<Tree>) {
    && r.tree.Node? && (r.split.SplitOff? ==> r.split.right.Node?)
    && AllKeys(r) == keys && AllKids(r) == kids
  }

  predicate NewNode(r: Outcome, next: nat) {
    r.split.SplitOff? && r.split.right.Node? && r.split.right.id == next && r.next == next + 1
  }

  /** A node that takes in a new child keeps all others in order. Only a full node is split: in the middle,
      whose key goes up, except that a sibling started at the far right end goes into a node of its own. */
  lemma AdoptMeans(id: nat, keys: seq<Key>, kids: seq<Tree>, k: nat, up: Key, sib: Tree, key: Key, next: nat, d: nat, lo: nat, hi: nat)
    requires Fan(keys, kids, d, lo, hi) && k <= |keys| <= M && Fits(keys, kids, k, up, sib, key, d, lo, hi)
    requires Lone(sib) ==> k == |keys|
    ensures var r := Adopt(id, keys, kids, k, up, sib, key, next);
            && NodesHave(r, InsertAt(keys, k, up), InsertAt(kids, k + 1, sib)) && r.tree.id == id
            && if |keys| < 15 then r.split.Whole? && r.next == next
               else NewNode(r, next) && if Lone(sib) then r.split.right.kids == [sib] else 8 <= |r.tree.kids| <= 9
  {
    if |keys| == M {
      if Lone(sib) {
        assert keys + [up] == InsertAt(keys, k, up) && kids + [sib] == InsertAt(kids, k + 1, sib);
      } else if k >= HALF {
        AdoptUpper(keys, kids, k, up, sib, key, d, lo, hi);
        UpperMeans(id, keys, kids, k, up, sib, next);
      } else {
        AdoptLower(keys, kids, k, up, sib, key, d, lo, hi);
        LowerMeans(id, keys, kids, k, up, sib, next);
      }
    }
  }

  lemma UpperMeans(id: nat, keys: seq<Key>, kids: seq<Tree>, k: nat, up: Key, sib: Tree, next: nat)
    requires HALF <= k <= |keys| == M && |kids| == |keys| + 1
    ensures var left, right := Node(id, keys[..HALF - 1], kids[..HALF]), Node(next, keys[HALF..], kids[HALF..]);
            var r := Outcome(left, SplitOff(keys[HALF - 1], right.(keys := InsertAt(right.keys, k - HALF, up), kids := InsertAt(right.kids, k - HALF + 1, sib))), next + 1);
            NodesHave(r, InsertAt(keys, k, up), InsertAt(kids, k + 1, sib)) && NewNode(r, next)
  {
    var middle := [keys[HALF - 1]];
    assert keys[..HALF - 1] + middle == keys[..HALF];
    CutInsert(keys, k, up);
    CutInsert(kids, k + 1, sib);
    assert keys[..HALF - 1] + (middle + InsertAt(keys[HALF..], k - HALF, up)) == keys[..HALF - 1] + middle + InsertAt(keys[HALF..], k - HALF, up);
  }

  lemma LowerMeans(id: nat, keys: seq<Key>, kids: seq<Tree>, k: nat, up: Key, sib: Tree, next: nat)
    requires k < HALF <= |keys| == M && |kids| == |keys| + 1
    ensures var left, right := Node(id, keys[..HALF - 1], kids[..HALF]), Node(next, keys[HALF..], kids[HALF..]);
            var r := Outcome(left.(keys := InsertAt(left.keys, k, up), kids := InsertAt(left.kids, k + 1, sib)), SplitOff(keys[HALF - 1], right), next + 1);
            NodesHave(r, InsertAt(keys, k, up), InsertAt(kids, k + 1, sib)) && NewNode(r, next)
  {
    var middle := [keys[HALF - 1]];
    assert InsertAt(keys[..HALF - 1], k, up) + (middle + keys[HALF..]) == InsertAt(keys, k, up);
    CutInsert(kids, k + 1, sib);
  }
}
