/** How a B+ tree lies in memory: cells with arrays of fixed length, of which a prefix is live, leaves
    linked to their neighbours, and what may change without changing the tree. */
module BTreeMemory {
  import opened BTree

  /** 0 is the null address. */
  type Addr = nat

  datatype LeafCell = LeafCell(num: nat, keys: seq<Key>, vals: seq<Val>, left: Addr, right: Addr, seqno: nat)
  datatype InnerCell = InnerCell(num: nat, keys: seq<Key>, kids: seq<Addr>)

  /** The cells in use. Leaves and inner nodes get their addresses from one counter. */
  datatype Mem = Mem(leaves: map<Addr, LeafCell>, inners: map<Addr, InnerCell>)

  // ---------------------------------------------------------------------------------------------
  // Cells that stand for a tree
  // ---------------------------------------------------------------------------------------------

  ghost predicate LeafIs(c: LeafCell, keys: seq<Key>, vals: seq<Val>) {
    && |c.keys| == M == |c.vals| && c.num == |keys| == |vals| && c.num <= M
    && c.keys[..c.num] == keys && c.vals[..c.num] == vals
  }

  ghost predicate InnerIs(c: InnerCell, keys: seq<Key>, ids: seq<Addr>) {
    && |c.keys| == M && |c.kids| == M + 1 && c.num == |keys| && |ids| == |keys| + 1 && c.num <= M
    && c.keys[..c.num] == keys && c.kids[..c.num + 1] == ids
  }

  ghost function IdsOf(kids: seq<Tree>): (r: seq<Addr>)
    ensures |r| == |kids| && forall i | 0 <= i < |r| :: r[i] == kids[i].id
  {
    seq(|kids|, i requires 0 <= i < |kids| => kids[i].id)
  }

  ghost predicate Rep(mem: Mem, t: Tree) {
    && t.id != 0
    && if t.Leaf? then t.id in mem.leaves && LeafIs(mem.leaves[t.id], t.keys, t.vals)
       else t.id in mem.inners && InnerIs(mem.inners[t.id], t.keys, IdsOf(t.kids)) && forall i | 0 <= i < |t.kids| :: Rep(mem, t.kids[i])
  }

  ghost predicate AllRep(mem: Mem, kids: seq<Tree>) {
    forall i | 0 <= i < |kids| :: Rep(mem, kids[i])
  }

  // ---------------------------------------------------------------------------------------------
  // No cell is used twice
  // ---------------------------------------------------------------------------------------------

  ghost predicate Owns(t: Tree, x: Addr) {
    x == t.id || (t.Node? && exists i :: 0 <= i < |t.kids| && Owns(t.kids[i], x))
  }

  ghost predicate Disjoint(a: Tree, b: Tree) {
    forall x: Addr | Owns(a, x) :: !Owns(b, x)
  }

  ghost predicate ApartKids(kids: seq<Tree>) {
    forall i, j | 0 <= i < |kids| && 0 <= j < |kids| && i != j :: Disjoint(kids[i], kids[j])
  }

  ghost predicate NotAmong(kids: seq<Tree>, x: Addr) {
    forall i | 0 <= i < |kids| :: !Owns(kids[i], x)
  }

  ghost predicate Apart(t: Tree) {
    t.Node? ==> NotAmong(t.kids, t.id) && ApartKids(t.kids) && forall i | 0 <= i < |t.kids| :: Apart(t.kids[i])
  }

  ghost predicate AllApart(kids: seq<Tree>) {
    ApartKids(kids) && forall i | 0 <= i < |kids| :: Apart(kids[i])
  }

  /** Every cell of the tree was there before address n was given out. */
  ghost predicate Below(t: Tree, n: Addr) {
    forall x: Addr | Owns(t, x) :: x < n
  }

  lemma OwnsKid(t: Tree, i: nat)
    requires t.Node? && i < |t.kids|
    ensures forall x: Addr | Owns(t.kids[i], x) :: Owns(t, x)
  {
  }

  /** The parts that insertion makes of a tree use the tree's own cells and new ones. */
  ghost predicate FromOld(t: Tree, r: Outcome, n: Addr) {
    && r.tree.id == t.id && n <= r.next
    && (forall x: Addr | Owns(r.tree, x) :: Owns(t, x) || n <= x < r.next)
    && Apart(r.tree)
    && (r.split.SplitOff? ==>
          && (forall x: Addr | Owns(r.split.right, x) :: Owns(t, x) || n <= x < r.next)
          && Apart(r.split.right) && Disjoint(r.tree, r.split.right))
  }

  // ---------------------------------------------------------------------------------------------
  // Frames
  // ---------------------------------------------------------------------------------------------

  /** The same entries; the links and the version of the leaf may differ. */
  ghost predicate SameEntries(a: LeafCell, b: LeafCell) {
    a.num == b.num && a.keys == b.keys && a.vals == b.vals
  }

  ghost predicate KeptAt(mem: Mem, mem': Mem, x: Addr) {
    && (x in mem.leaves ==> x in mem'.leaves && SameEntries(mem.leaves[x], mem'.leaves[x]))
    && (x in mem.inners ==> x in mem'.inners && mem'.inners[x] == mem.inners[x])
  }

  lemma {:induction false} RepKept(mem: Mem, mem': Mem, t: Tree)
    requires Rep(mem, t) && forall x: Addr | Owns(t, x) :: KeptAt(mem, mem', x)
    ensures Rep(mem', t)
  {
    assert KeptAt(mem, mem', t.id);
    if t.Node? {
      forall i | 0 <= i < |t.kids| ensures Rep(mem', t.kids[i]) {
        OwnsKid(t, i);
        RepKept(mem, mem', t.kids[i]);
      }
    }
  }

  /** All children but the k-th are left alone by changes to the k-th child's cells and to new ones. */
  lemma KidsKept(mem: Mem, mem': Mem, kids: seq<Tree>, k: nat, kid: Tree, n: Addr)
    requires AllRep(mem, kids) && AllApart(kids) && k < |kids| && Rep(mem', kid)
    requires forall i | 0 <= i < |kids| :: Below(kids[i], n)
    requires forall x: Addr | x < n && !Owns(kids[k], x) :: KeptAt(mem, mem', x)
    ensures AllRep(mem', kids[k := kid])
  {
    var kids' := kids[k := kid];
    forall i | 0 <= i < |kids| ensures Rep(mem', kids'[i]) {
      if i != k {
        assert Disjoint(kids[i], kids[k]) && Below(kids[i], n);
        RepKept(mem, mem', kids[i]);
      }
    }
  }

  lemma AllRepKept(mem: Mem, mem': Mem, kids: seq<Tree>)
    requires AllRep(mem, kids)
    requires forall i, x: Addr | 0 <= i < |kids| && Owns(kids[i], x) :: KeptAt(mem, mem', x)
    ensures AllRep(mem', kids)
  {
    forall i | 0 <= i < |kids| ensures Rep(mem', kids[i]) { RepKept(mem, mem', kids[i]); }
  }

  // ---------------------------------------------------------------------------------------------
  // Cells stay apart
  // ---------------------------------------------------------------------------------------------

  /** The children after the k-th has become r: none of them shares a cell. */
  lemma ReplaceApart(kids: seq<Tree>, k: nat, kid: Tree, n: Addr, n': Addr)
    requires AllApart(kids) && k < |kids| && Apart(kid) && forall i | 0 <= i < |kids| :: Below(kids[i], n)
    requires forall x: Addr | Owns(kid, x) :: Owns(kids[k], x) || n <= x < n'
    ensures AllApart(kids[k := kid])
  {
    var kids' := kids[k := kid];
    forall i, j | 0 <= i < |kids| && 0 <= j < |kids| && i != j ensures Disjoint(kids'[i], kids'[j]) {
      assert Disjoint(kids[i], kids[j]) && Below(kids[i], n) && Below(kids[j], n);
    }
  }

  lemma InsertApart(kids: seq<Tree>, k: nat, sib: Tree)
    requires AllApart(kids) && k <= |kids| && Apart(sib)
    requires forall i | 0 <= i < |kids| :: Disjoint(kids[i], sib)
    ensures AllApart(InsertAt(kids, k, sib))
  {
    var all := InsertAt(kids, k, sib);
    forall i, j | 0 <= i < |all| && 0 <= j < |all| && i != j ensures Disjoint(all[i], all[j]) {
      var a, b := if i < k then i else i - 1, if j < k then j else j - 1;
      if i != k && j != k {
        assert Disjoint(kids[a], kids[b]);
      } else if i == k {
        assert Disjoint(kids[b], sib);
      }
    }
    forall i | 0 <= i < |all| ensures Apart(all[i]) {
      if i < k { assert Apart(kids[i]); } else if k < i { assert Apart(kids[i - 1]); }
    }
  }

  lemma SliceApart(kids: seq<Tree>, m: nat)
    requires AllApart(kids) && m <= |kids|
    ensures AllApart(kids[..m]) && AllApart(kids[m..])
    ensures forall i, j | 0 <= i < m && m <= j < |kids| :: Disjoint(kids[i], kids[j])
  {
  }

  /** Every cell of these trees is one of t's below n, but not t's own, or a new one. */
  ghost predicate Within(kids: seq<Tree>, t: Tree, n: Addr, n': Addr) {
    forall i | 0 <= i < |kids| :: OneWithin(kids[i], t, n, n')
  }

  ghost predicate OneWithin(kid: Tree, t: Tree, n: Addr, n': Addr) {
    forall x: Addr | Owns(kid, x) :: x != t.id && (Owns(t, x) || n <= x < n')
  }

  lemma NodeFromOld(t: Tree, keys: seq<Key>, kids: seq<Tree>, n: Addr, n': Addr)
    requires AllApart(kids) && Within(kids, t, n, n') && n <= n'
    ensures FromOld(t, Outcome(Node(t.id, keys, kids), Whole, n'), n)
  {
    forall i | 0 <= i < |kids| ensures !Owns(kids[i], t.id) { assert OneWithin(kids[i], t, n, n'); }
  }

  lemma TwoFromOld(t: Tree, all: seq<Tree>, m: nat, keys: seq<Key>, keys': seq<Key>, up: Key, n: Addr, n': Addr)
    requires AllApart(all) && Within(all, t, n, n') && Below(t, n) && m <= |all| && n <= n'
    ensures FromOld(t, Outcome(Node(t.id, keys, all[..m]), SplitOff(up, Node(n', keys', all[m..])), n' + 1), n)
  {
    SliceApart(all, m);
    var a, b := Node(t.id, keys, all[..m]), Node(n', keys', all[m..]);
    assert Owns(t, t.id);
    forall i, x: Addr | 0 <= i < |all| && Owns(all[i], x) ensures x != t.id && x != n' && (Owns(t, x) || n <= x < n') {
      assert OneWithin(all[i], t, n, n');
    }
    assert NotAmong(a.kids, t.id) && NotAmong(b.kids, n') && Apart(a) && Apart(b);
    forall x: Addr | Owns(a, x) ensures !Owns(b, x) {
      if x != t.id {
        var i :| 0 <= i < m && Owns(a.kids[i], x);
        assert a.kids[i] == all[i];
        forall j | 0 <= j < |b.kids| ensures !Owns(b.kids[j], x) { assert Disjoint(all[i], all[m + j]); }
      } else {
        forall j | 0 <= j < |b.kids| ensures !Owns(b.kids[j], x) { assert b.kids[j] == all[m + j]; }
      }
    }
  }

  /** The children of a node after one of them has been split. */
  lemma KidsFromOld(t: Tree, k: nat, r: Outcome, n: Addr)
    requires t.Node? && Apart(t) && Below(t, n) && k < |t.kids| && FromOld(t.kids[k], r, n)
    ensures AllApart(t.kids[k := r.tree]) && Within(t.kids[k := r.tree], t, n, r.next)
    ensures r.split.SplitOff? ==>
              var all := InsertAt(t.kids[k := r.tree], k + 1, r.split.right); AllApart(all) && Within(all, t, n, r.next)
  {
    var kids := t.kids[k := r.tree];
    assert Owns(t, t.id);
    forall i | 0 <= i < |t.kids| ensures Below(t.kids[i], n) { OwnsKid(t, i); }
    ReplaceApart(t.kids, k, r.tree, n, r.next);
    forall i | 0 <= i < |kids| ensures OneWithin(kids[i], t, n, r.next) {
      assert !Owns(t.kids[i], t.id) && Below(t, n);
      OwnsKid(t, i);
    }
    if r.split.SplitOff? {
      forall i | 0 <= i < |kids| ensures Disjoint(kids[i], r.split.right) {
        if i != k { assert Disjoint(t.kids[i], t.kids[k]) && Below(t.kids[i], n); }
      }
      InsertApart(kids, k + 1, r.split.right);
      InsertWithin(t, kids, k + 1, r.split.right, n, r.next);
    }
  }

  lemma InsertWithin(t: Tree, kids: seq<Tree>, k: nat, sib: Tree, n: Addr, n': Addr)
    requires Within(kids, t, n, n') && k <= |kids| && OneWithin(sib, t, n, n')
    ensures Within(InsertAt(kids, k, sib), t, n, n')
  {
    var all := InsertAt(kids, k, sib);
    forall i | 0 <= i < |all| ensures OneWithin(all[i], t, n, n') {
      if i < k { assert all[i] == kids[i]; } else if k < i { assert all[i] == kids[i - 1]; }
    }
  }

  /** What a node makes of a split child uses the node's cells and new ones, each once. */
  lemma AbsorbFromOld(t: Tree, k: nat, key: Key, r: Outcome, n: Addr)
    requires t.Node? && k <= |t.keys| <= M && |t.kids| == |t.keys| + 1
    requires Apart(t) && Below(t, n) && FromOld(t.kids[k], r, n) && (r.split.SplitOff? && Lone(r.split.right) ==> k == |t.keys|)
    requires r.split.SplitOff? && |t.keys| == M && !Lone(r.split.right) ==>
               ((if r.split.right.Leaf? then r.split.up else key) >= t.keys[HALF - 1] <==> k >= HALF)
    ensures FromOld(t, Absorb(t, k, key, r), n)
  {
    KidsFromOld(t, k, r, n);
    if r.split.Whole? {
      NodeFromOld(t, t.keys, t.kids[k := r.tree], n, r.next);
    } else {
      AdoptFromOld(t, t.kids[k := r.tree], k, r.split.up, r.split.right, key, n, r.next);
    }
  }

  lemma AdoptFromOld(t: Tree, kids: seq<Tree>, k: nat, up: Key, sib: Tree, key: Key, n: Addr, n': Addr)
    requires t.Node? && k <= |t.keys| <= M && |kids| == |t.keys| + 1 && Below(t, n) && n <= n'
    requires AllApart(InsertAt(kids, k + 1, sib)) && Within(InsertAt(kids, k + 1, sib), t, n, n')
    requires Lone(sib) ==> k == |t.keys|
    requires |t.keys| == M && !Lone(sib) ==> ((if sib.Leaf? then up else key) >= t.keys[HALF - 1] <==> k >= HALF)
    ensures FromOld(t, Adopt(t.id, t.keys, kids, k, up, sib, key, n'), n)
  {
    var all := InsertAt(kids, k + 1, sib);
    if |t.keys| < M {
      NodeFromOld(t, InsertAt(t.keys, k, up), all, n, n');
    } else if Lone(sib) {
      TwoFromOld(t, all, M + 1, t.keys, [], up, n, n');
      assert all[..M + 1] == kids && all[M + 1..] == [sib];
    } else if k >= HALF {
      AboveFromOld(t, kids, k, up, sib, key, n, n');
    } else {
      BelowFromOld(t, kids, k, up, sib, key, n, n');
    }
  }

  lemma AdoptedAbove(id: nat, keys: seq<Key>, kids: seq<Tree>, k: nat, up: Key, sib: Tree, key: Key, next: nat)
    requires HALF <= k <= |keys| == M && |kids| == |keys| + 1 && !Lone(sib) && (if sib.Leaf? then up else key) >= keys[HALF - 1]
    ensures Adopt(id, keys, kids, k, up, sib, key, next) ==
            Outcome(Node(id, keys[..HALF - 1], InsertAt(kids, k + 1, sib)[..HALF]),
                    SplitOff(keys[HALF - 1], Node(next, InsertAt(keys[HALF..], k - HALF, up), InsertAt(kids, k + 1, sib)[HALF..])), next + 1)
  {
    PartsAbove(kids, k, sib);
  }

  lemma AboveFromOld(t: Tree, kids: seq<Tree>, k: nat, up: Key, sib: Tree, key: Key, n: Addr, n': Addr)
    requires t.Node? && HALF <= k <= |t.keys| == M && |kids| == |t.keys| + 1 && Below(t, n) && n <= n'
    requires AllApart(InsertAt(kids, k + 1, sib)) && Within(InsertAt(kids, k + 1, sib), t, n, n')
    requires !Lone(sib) && (if sib.Leaf? then up else key) >= t.keys[HALF - 1]
    ensures FromOld(t, Adopt(t.id, t.keys, kids, k, up, sib, key, n'), n)
  {
    AdoptedAbove(t.id, t.keys, kids, k, up, sib, key, n');
    TwoFromOld(t, InsertAt(kids, k + 1, sib), HALF, t.keys[..HALF - 1], InsertAt(t.keys[HALF..], k - HALF, up), t.keys[HALF - 1], n, n');
  }

  lemma AdoptedBelow(id: nat, keys: seq<Key>, kids: seq<Tree>, k: nat, up: Key, sib: Tree, key: Key, next: nat)
    requires k < HALF && |keys| == M && |kids| == |keys| + 1 && !Lone(sib) && (if sib.Leaf? then up else key) < keys[HALF - 1]
    ensures Adopt(id, keys, kids, k, up, sib, key, next) ==
            Outcome(Node(id, InsertAt(keys[..HALF - 1], k, up), InsertAt(kids, k + 1, sib)[..HALF + 1]),
                    SplitOff(keys[HALF - 1], Node(next, keys[HALF..], InsertAt(kids, k + 1, sib)[HALF + 1..])), next + 1)
  {
    PartsBelow(kids, k, sib);
  }

  lemma BelowFromOld(t: Tree, kids: seq<Tree>, k: nat, up: Key, sib: Tree, key: Key, n: Addr, n': Addr)
    requires t.Node? && k < HALF && |t.keys| == M && |kids| == |t.keys| + 1 && Below(t, n) && n <= n'
    requires AllApart(InsertAt(kids, k + 1, sib)) && Within(InsertAt(kids, k + 1, sib), t, n, n')
    requires !Lone(sib) && (if sib.Leaf? then up else key) < t.keys[HALF - 1]
    ensures FromOld(t, Adopt(t.id, t.keys, kids, k, up, sib, key, n'), n)
  {
    AdoptedBelow(t.id, t.keys, kids, k, up, sib, key, n');
    TwoFromOld(t, InsertAt(kids, k + 1, sib), HALF + 1, InsertAt(t.keys[..HALF - 1], k, up), t.keys[HALF..], t.keys[HALF - 1], n, n');
  }

  lemma PartsAbove(kids: seq<Tree>, k: nat, sib: Tree)
    requires HALF <= k < |kids|
    ensures var all := InsertAt(kids, k + 1, sib);
            all[..HALF] == kids[..HALF] && all[HALF..] == InsertAt(kids[HALF..], k - HALF + 1, sib)
  {
  }

  lemma PartsBelow(kids: seq<Tree>, k: nat, sib: Tree)
    requires k < HALF <= |kids|
    ensures var all := InsertAt(kids, k + 1, sib);
            all[..HALF + 1] == InsertAt(kids[..HALF], k + 1, sib) && all[HALF + 1..] == kids[HALF..]
  {
  }
}
