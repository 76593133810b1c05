/** What one insertion does to the memory of a tree: links, versions, entries and cells. */
module BTreeSteps {
  import opened BTree
  import opened BTreeChain
  import opened BTreeEntries
  import opened BTreeMemory

  // ---------------------------------------------------------------------------------------------
  // Leaf links
  // ---------------------------------------------------------------------------------------------

  type LeafMap = map<Addr, LeafCell>

  ghost predicate Linked(mem: LeafMap, ls: seq<Tree>) {
    && (forall i, j | 0 <= i < |ls| && 0 <= j < |ls| && i != j :: ls[i].id != ls[j].id)
    && forall i | 0 <= i < |ls| :: LinkedAt(mem, ls, i)
  }

  ghost predicate LinkedAt(mem: LeafMap, ls: seq<Tree>, i: nat)
    requires i < |ls|
  {
    && ls[i].id in mem && ls[i].id != 0
    && mem[ls[i].id].right == (if i + 1 < |ls| then ls[i + 1].id else 0)
    && mem[ls[i].id].left == (if 0 < i then ls[i - 1].id else 0)
  }

  /** One insertion, as far as links and versions of leaves are concerned: leaf lid has perhaps got a
      new right neighbour sid, and bump says that its version has gone up. */
  ghost predicate LeafStep(mem: LeafMap, mem': LeafMap, lid: Addr, sid: Addr, bump: bool) {
    && lid in mem && (sid != 0 ==> sid !in mem)
    && (forall x | x in mem :: LeafStepAt(mem, mem', lid, sid, bump, x))
    && (sid != 0 ==> sid in mem' && mem'[sid].left == lid && mem'[sid].right == mem[lid].right && mem'[sid].seqno == 0)
  }

  ghost predicate LeafStepAt(mem: LeafMap, mem': LeafMap, lid: Addr, sid: Addr, bump: bool, x: Addr)
    requires lid in mem && x in mem
  {
    && x in mem'
    && mem'[x].seqno == mem[x].seqno + (if x == lid && bump then 1 else 0)
    && mem'[x].right == (if x == lid && sid != 0 then sid else mem[x].right)
    && mem'[x].left == (if x == mem[lid].right && sid != 0 then sid else mem[x].left)
  }

  /** The chain stays linked when a leaf has been replaced by itself and a new right neighbour. */
  lemma SplitLinked(mem: LeafMap, mem': LeafMap, ls: seq<Tree>, j: nat, leaf: Tree, sib: Tree, bump: bool)
    requires Linked(mem, ls) && j < |ls| && leaf.id == ls[j].id && sib.id != 0
    requires LeafStep(mem, mem', leaf.id, sib.id, bump)
    ensures Linked(mem', ls[..j] + [leaf, sib] + ls[j + 1..])
  {
    var ls' := ls[..j] + [leaf, sib] + ls[j + 1..];
    assert LinkedAt(mem, ls, j);
    SplitIds(ls, j, leaf, sib);
    forall i | 0 <= i < |ls| ensures ls[i].id != sib.id { assert LinkedAt(mem, ls, i); }
    forall i | 0 <= i < |ls'| ensures LinkedAt(mem', ls', i) {
      if i != j + 1 {
        var a := if i <= j then i else i - 1;
        assert LinkedAt(mem, ls, a);
        assert LeafStepAt(mem, mem', leaf.id, sib.id, bump, ls[a].id);
      }
    }
  }

  lemma SplitIds(ls: seq<Tree>, j: nat, leaf: Tree, sib: Tree)
    requires j < |ls| && leaf.id == ls[j].id
    ensures var ls' := ls[..j] + [leaf, sib] + ls[j + 1..];
            && |ls'| == |ls| + 1
            && forall i | 0 <= i < |ls'| :: ls'[i].id == if i <= j then ls[i].id else if i == j + 1 then sib.id else ls[i - 1].id
  {
  }

  lemma WholeLinked(mem: LeafMap, mem': LeafMap, ls: seq<Tree>, j: nat, leaf: Tree, bump: bool)
    requires Linked(mem, ls) && j < |ls| && leaf.id == ls[j].id && LeafStep(mem, mem', leaf.id, 0, bump)
    ensures Linked(mem', ls[..j] + [leaf] + ls[j + 1..])
  {
    var ls' := ls[..j] + [leaf] + ls[j + 1..];
    assert forall i | 0 <= i < |ls| :: ls'[i].id == ls[i].id;
    forall i | 0 <= i < |ls| ensures LinkedAt(mem', ls', i) {
      assert LinkedAt(mem, ls, i);
      assert LeafStepAt(mem, mem', leaf.id, 0, bump, ls[i].id);
    }
  }

  lemma StepLinked(mem: LeafMap, mem': LeafMap, ls: seq<Tree>, j: nat, r: Outcome, bump: bool)
    requires Linked(mem, ls) && j < |ls| && r.tree.id == ls[j].id && (r.split.SplitOff? ==> r.split.right.id != 0)
    requires LeafStep(mem, mem', ls[j].id, if r.split.Whole? then 0 else r.split.right.id, bump)
    ensures Linked(mem', ls[..j] + LeafPair(r) + ls[j + 1..])
  {
    if r.split.Whole? {
      assert LeafPair(r) == [r.tree];
      WholeLinked(mem, mem', ls, j, r.tree, bump);
    } else {
      assert LeafPair(r) == [r.tree, r.split.right];
      SplitLinked(mem, mem', ls, j, r.tree, r.split.right, bump);
    }
  }

  /** A new leaf has been put in after leaf lid. */
  lemma AfterLinking(mem: LeafMap, mid: LeafMap, mem': LeafMap, lid: Addr, sid: Addr)
    requires lid in mem && sid !in mem && sid != 0 && mid.Keys == mem.Keys + {sid} == mem'.Keys
    requires forall x | x in mem :: mid[x].left == mem[x].left && mid[x].right == mem[x].right && mid[x].seqno == mem[x].seqno
    requires mem'[lid] == mid[lid].(right := sid) && mem'[sid] == mid[sid].(left := lid, right := mid[lid].right, seqno := 0)
    requires mem[lid].right != lid
    requires forall x | x in mem && x != lid :: mem'[x] == if x == mid[lid].right && x != 0 then mid[x].(left := sid) else mid[x]
    requires 0 !in mem
    ensures LeafStep(mem, mem', lid, sid, false)
  {
    forall x | x in mem ensures LeafStepAt(mem, mem', lid, sid, false, x) { }
  }

  /** Links and versions are as they were just now. */
  lemma SameLinks(mem: LeafMap, mid: LeafMap, mem': LeafMap, lid: Addr, sid: Addr)
    requires LeafStep(mem, mid, lid, sid, false) && mem'.Keys == mid.Keys
    requires forall x | x in mid :: mem'[x].left == mid[x].left && mem'[x].right == mid[x].right && mem'[x].seqno == mid[x].seqno
    ensures LeafStep(mem, mem', lid, sid, false)
  {
    forall x | x in mem ensures LeafStepAt(mem, mem', lid, sid, false, x) {
      assert LeafStepAt(mem, mid, lid, sid, false, x);
    }
  }

  /** The leaf's version goes up, after its links have changed. */
  lemma BumpStep(mem: LeafMap, mid: LeafMap, mem': LeafMap, lid: Addr, sid: Addr)
    requires LeafStep(mem, mid, lid, sid, false) && mem'.Keys == mid.Keys && lid in mid && lid != sid
    requires forall x | x in mid :: mem'[x].left == mid[x].left && mem'[x].right == mid[x].right
                                   && mem'[x].seqno == mid[x].seqno + (if x == lid then 1 else 0)
    ensures LeafStep(mem, mem', lid, sid, true)
  {
    forall x | x in mem ensures LeafStepAt(mem, mem', lid, sid, true, x) {
      assert LeafStepAt(mem, mid, lid, sid, false, x);
    }
  }

  // ---------------------------------------------------------------------------------------------
  // Insertion below a node
  // ---------------------------------------------------------------------------------------------

  function SplitId(r: Outcome): Addr {
    if r.split.Whole? then 0 else r.split.right.id
  }

  /** How an insertion went: what became of the tree, of which leaf, and the record found or stored. */
  datatype Trace = Trace(r: Outcome, j: nat, leaf: Tree, lr: Outcome, end: bool, bump: bool, val: Val)

  ghost predicate Inserted(mem: Mem, mem': Mem, t: Tree, d: nat, key: Key, v: Val, last: bool, lo: nat, hi: nat, n: Addr, w: Trace) {
    && OutcomeOk(w.r, d, last, lo, hi) && FromOld(t, w.r, n)
    && InChain(t, key, v, last, n, w)
    && Rep(mem', w.r.tree) && (w.r.split.SplitOff? ==> Rep(mem', w.r.split.right))
    && (forall x: Addr | x < n && !Owns(t, x) :: KeptAt(mem, mem', x))
    && LeafStep(mem.leaves, mem'.leaves, w.leaf.id, SplitId(w.lr), w.bump)
  }

  /** The chain's leaf that the key leads to has taken it in, or had it already. */
  ghost predicate InChain(t: Tree, key: Key, v: Val, last: bool, n: Addr, w: Trace) {
    && Grown(Leaves(t), OutcomeLeaves(w.r), w.j, key, w.leaf, LeafPair(w.lr), w.end, last)
    && LeafOk(w.leaf, 0, LIMIT) && w.lr == LeafIns(w.leaf, key, v, w.end, n)
    && w.bump == (key !in w.leaf.keys)
    && (if key in w.leaf.keys then LeafHolds(w.leaf, key, w.val) else w.val == v)
  }

  lemma IdsInsert(kids: seq<Tree>, k: nat, sib: Tree)
    requires k <= |kids|
    ensures IdsOf(InsertAt(kids, k, sib)) == InsertAt(IdsOf(kids), k, sib.id)
  {
  }

  lemma IdsCut(kids: seq<Tree>, m: nat)
    requires m <= |kids|
    ensures IdsOf(kids[..m]) == IdsOf(kids)[..m] && IdsOf(kids[m..]) == IdsOf(kids)[m..]
  {
  }

  /** The cells of a node, and of its new right neighbour if it has one, after it has taken in sib. */
  ghost predicate AdoptedCells(mem: Mem, id: Addr, keys: seq<Key>, ids: seq<Addr>, k: nat, up: Key, kid: Addr, lone: bool, ns: Addr)
    requires k <= |keys| <= M && |ids| == |keys| + 1
  {
    && id in mem.inners
    && if |keys| < M then InnerIs(mem.inners[id], InsertAt(keys, k, up), InsertAt(ids, k + 1, kid))
       else if lone then ns in mem.inners && InnerIs(mem.inners[id], keys, ids) && InnerIs(mem.inners[ns], [], [kid])
       else if k >= HALF then
         && ns in mem.inners && InnerIs(mem.inners[id], keys[..HALF - 1], ids[..HALF])
         && InnerIs(mem.inners[ns], InsertAt(keys[HALF..], k - HALF, up), InsertAt(ids[HALF..], k - HALF + 1, kid))
       else
         && ns in mem.inners && InnerIs(mem.inners[id], InsertAt(keys[..HALF - 1], k, up), InsertAt(ids[..HALF], k + 1, kid))
         && InnerIs(mem.inners[ns], keys[HALF..], ids[HALF..])
  }

  lemma AdoptRep(mem: Mem, id: Addr, keys: seq<Key>, kids: seq<Tree>, k: nat, up: Key, sib: Tree, key: Key, ns: Addr)
    requires k <= |keys| <= M && |kids| == |keys| + 1 && id != 0 && ns != 0
    requires AllRep(mem, InsertAt(kids, k + 1, sib)) && (Lone(sib) ==> k == |keys|)
    requires |keys| == M && !Lone(sib) ==> ((if sib.Leaf? then up else key) >= keys[HALF - 1] <==> k >= HALF)
    requires AdoptedCells(mem, id, keys, IdsOf(kids), k, up, sib.id, Lone(sib), ns)
    ensures var r := Adopt(id, keys, kids, k, up, sib, key, ns);
            Rep(mem, r.tree) && (r.split.SplitOff? ==> Rep(mem, r.split.right))
  {
    var all := InsertAt(kids, k + 1, sib);
    IdsInsert(kids, k + 1, sib);
    if |keys| < M {
    } else if Lone(sib) {
      assert IdsOf([sib]) == [sib.id];
      assert all == kids + [sib] && all[M + 1] == sib && forall i | 0 <= i < |kids| :: all[i] == kids[i];
    } else if k >= HALF {
      AdoptRepAbove(mem, id, keys, kids, k, up, sib, key, ns);
    } else {
      AdoptRepBelow(mem, id, keys, kids, k, up, sib, key, ns);
    }
  }

  lemma NodeRep(mem: Mem, id: Addr, keys: seq<Key>, kids: seq<Tree>)
    requires id != 0 && id in mem.inners && InnerIs(mem.inners[id], keys, IdsOf(kids)) && AllRep(mem, kids)
    ensures Rep(mem, Node(id, keys, kids))
  {
  }

  lemma AllRepParts(mem: Mem, all: seq<Tree>, m: nat)
    requires AllRep(mem, all) && m <= |all|
    ensures AllRep(mem, all[..m]) && AllRep(mem, all[m..])
  {
    var a, b := all[..m], all[m..];
    forall i | 0 <= i < |a| ensures Rep(mem, a[i]) { assert a[i] == all[i]; }
    forall i | 0 <= i < |b| ensures Rep(mem, b[i]) { assert b[i] == all[m + i]; }
  }

  lemma AdoptRepAbove(mem: Mem, id: Addr, keys: seq<Key>, kids: seq<Tree>, k: nat, up: Key, sib: Tree, key: Key, ns: Addr)
    requires HALF <= k <= |keys| == M && |kids| == |keys| + 1 && id != 0 && ns != 0
    requires AllRep(mem, InsertAt(kids, k + 1, sib)) && !Lone(sib) && (if sib.Leaf? then up else key) >= keys[HALF - 1]
    requires AdoptedCells(mem, id, keys, IdsOf(kids), k, up, sib.id, false, ns)
    ensures var r := Adopt(id, keys, kids, k, up, sib, key, ns);
            Rep(mem, r.tree) && (r.split.SplitOff? ==> Rep(mem, r.split.right))
  {
    var all := InsertAt(kids, k + 1, sib);
    IdsCut(kids, HALF);
    IdsInsert(kids[HALF..], k - HALF + 1, sib);
    PartsAbove(kids, k, sib);
    AllRepParts(mem, all, HALF);
    AdoptedAbove(id, keys, kids, k, up, sib, key, ns);
    NodeRep(mem, id, keys[..HALF - 1], all[..HALF]);
    NodeRep(mem, ns, InsertAt(keys[HALF..], k - HALF, up), all[HALF..]);
  }

  lemma AdoptRepBelow(mem: Mem, id: Addr, keys: seq<Key>, kids: seq<Tree>, k: nat, up: Key, sib: Tree, key: Key, ns: Addr)
    requires k < HALF && |keys| == M && |kids| == |keys| + 1 && id != 0 && ns != 0
    requires AllRep(mem, InsertAt(kids, k + 1, sib)) && !Lone(sib) && (if sib.Leaf? then up else key) < keys[HALF - 1]
    requires AdoptedCells(mem, id, keys, IdsOf(kids), k, up, sib.id, false, ns)
    ensures var r := Adopt(id, keys, kids, k, up, sib, key, ns);
            Rep(mem, r.tree) && (r.split.SplitOff? ==> Rep(mem, r.split.right))
  {
    var all := InsertAt(kids, k + 1, sib);
    IdsCut(kids, HALF);
    IdsInsert(kids[..HALF], k + 1, sib);
    PartsBelow(kids, k, sib);
    AllRepParts(mem, all, HALF + 1);
    AdoptedBelow(id, keys, kids, k, up, sib, key, ns);
    NodeRep(mem, id, InsertAt(keys[..HALF - 1], k, up), all[..HALF + 1]);
    NodeRep(mem, ns, keys[HALF..], all[HALF + 1..]);
  }

  // ---------------------------------------------------------------------------------------------
  // From a child to its node
  // ---------------------------------------------------------------------------------------------

  /** Which half of a full node a new child belongs to. */
  lemma MiddleTells(t: Tree, d: nat, k: nat, key: Key, r: Outcome, lo: nat, hi: nat)
    requires NodeOk(t, d, lo, hi) && k <= |t.keys| == M && Low(t.keys, lo, k) <= key < High(t.keys, hi, k)
    requires r.split.SplitOff? && Fills(r, d, Low(t.keys, lo, k), High(t.keys, hi, k))
    ensures r.split.up >= t.keys[HALF - 1] <==> k >= HALF
    ensures key >= t.keys[HALF - 1] <==> k >= HALF
  {
    assert k >= HALF ==> t.keys[HALF - 1] <= Low(t.keys, lo, k);
    assert k < HALF ==> High(t.keys, hi, k) <= t.keys[HALF - 1];
  }

  /** Only the node's own cell and a new one have changed since the insertion into its k-th child. */
  ghost predicate NodeStep(mem: Mem, mem': Mem, id: Addr, n: Addr) {
    mem'.leaves == mem.leaves && forall x: Addr | x < n && x != id && x in mem.inners :: x in mem'.inners && mem'.inners[x] == mem.inners[x]
  }

  /** The children of the node, after the insertion into the k-th one and the change to the node itself. */
  lemma KidsAfter(mem: Mem, mem1: Mem, mem2: Mem, t: Tree, d: nat, key: Key, v: Val, last: bool, l: nat, h: nat, k: nat, n: Addr, w: Trace)
    requires Rep(mem, t) && t.Node? && k < |t.kids| && Apart(t) && Below(t, n)
    requires Inserted(mem, mem1, t.kids[k], d, key, v, last, l, h, n, w) && NodeStep(mem1, mem2, t.id, w.r.next)
    ensures AllRep(mem2, t.kids[k := w.r.tree])
    ensures w.r.split.SplitOff? ==> AllRep(mem2, InsertAt(t.kids[k := w.r.tree], k + 1, w.r.split.right))
  {
    var kids := t.kids[k := w.r.tree];
    forall i | 0 <= i < |t.kids| ensures Below(t.kids[i], n) { OwnsKid(t, i); }
    KidsKept(mem, mem1, t.kids, k, w.r.tree, n);
    KidsFromOld(t, k, w.r, n);
    StepKeeps(mem1, mem2, t, kids, n, w.r.next);
    if w.r.split.SplitOff? {
      var all := InsertAt(kids, k + 1, w.r.split.right);
      forall i | 0 <= i < |all| ensures Rep(mem1, all[i]) {
        if i <= k { assert all[i] == kids[i]; } else if i > k + 1 { assert all[i] == kids[i - 1]; }
      }
      StepKeeps(mem1, mem2, t, all, n, w.r.next);
    }
  }

  lemma StepKeeps(mem: Mem, mem': Mem, t: Tree, kids: seq<Tree>, n: Addr, n': Addr)
    requires AllRep(mem, kids) && Within(kids, t, n, n') && Below(t, n) && n <= n' && NodeStep(mem, mem', t.id, n')
    ensures AllRep(mem', kids)
  {
    forall i, x: Addr | 0 <= i < |kids| && Owns(kids[i], x) ensures KeptAt(mem, mem', x) { assert OneWithin(kids[i], t, n, n'); }
    AllRepKept(mem, mem', kids);
  }

  /** The node's cells after the insertion into its k-th child: as before, or with the split taken in. */
  ghost predicate TakenIn(mem: Mem, mem': Mem, t: Tree, k: nat, r: Outcome)
    requires t.Node? && k <= |t.keys| <= M && |t.kids| == |t.keys| + 1
  {
    && NodeStep(mem, mem', t.id, r.next)
    && if r.split.Whole? then mem' == mem
       else AdoptedCells(mem', t.id, t.keys, IdsOf(t.kids), k, r.split.up, r.split.right.id, Lone(r.split.right), r.next)
  }

  lemma RepUp(mem: Mem, mem1: Mem, mem2: Mem, t: Tree, d: nat, key: Key, v: Val, last: bool, lo: nat, hi: nat, k: nat, n: Addr, w: Trace)
    requires NodeOk(t, d, lo, hi) && k <= |t.keys| && Low(t.keys, lo, k) <= key < High(t.keys, hi, k)
    requires Rep(mem, t) && Apart(t) && Below(t, n) && 0 < n
    requires Inserted(mem, mem1, t.kids[k], d, key, v, last && k == |t.keys|, Low(t.keys, lo, k), High(t.keys, hi, k), n, w)
    requires TakenIn(mem1, mem2, t, k, w.r)
    ensures var r := Absorb(t, k, key, w.r); Rep(mem2, r.tree) && (r.split.SplitOff? ==> Rep(mem2, r.split.right))
  {
    KidsAfter(mem, mem1, mem2, t, d, key, v, last && k == |t.keys|, Low(t.keys, lo, k), High(t.keys, hi, k), k, n, w);
    var kids := t.kids[k := w.r.tree];
    assert IdsOf(kids) == IdsOf(t.kids);
    if w.r.split.Whole? {
      assert Owns(t, t.id) && !Owns(t.kids[k], t.id);
      assert KeptAt(mem, mem1, t.id);
      NodeRep(mem2, t.id, t.keys, kids);
    } else {
      if |t.keys| == M { MiddleTells(t, d, k, key, w.r, lo, hi); }
      AdoptRep(mem2, t.id, t.keys, kids, k, w.r.split.up, w.r.split.right, key, w.r.next);
    }
  }

  /** A node's own cell is not touched by an insertion into a child. */
  lemma OwnCellKept(mem: Mem, mem': Mem, t: Tree, k: nat, n: Addr)
    requires t.Node? && k < |t.kids| && Rep(mem, t) && Apart(t) && Below(t, n)
    requires forall x: Addr | x < n && !Owns(t.kids[k], x) :: KeptAt(mem, mem', x)
    ensures t.id in mem'.inners && InnerIs(mem'.inners[t.id], t.keys, IdsOf(t.kids))
  {
    assert Owns(t, t.id) && !Owns(t.kids[k], t.id);
    assert KeptAt(mem, mem', t.id);
  }

  lemma FrameUp(mem: Mem, mem1: Mem, mem2: Mem, t: Tree, k: nat, n: Addr, n': Addr)
    requires t.Node? && k < |t.kids| && n <= n' && NodeStep(mem1, mem2, t.id, n')
    requires forall x: Addr | x < n && !Owns(t.kids[k], x) :: KeptAt(mem, mem1, x)
    ensures forall x: Addr | x < n && !Owns(t, x) :: KeptAt(mem, mem2, x)
  {
    forall x: Addr | x < n && !Owns(t, x) ensures KeptAt(mem, mem2, x) {
      OwnsKid(t, k);
      assert KeptAt(mem, mem1, x);
    }
  }

  lemma ShapeUp(t: Tree, d: nat, key: Key, last: bool, lo: nat, hi: nat, k: nat, n: Addr, r: Outcome)
    requires NodeOk(t, d, lo, hi) && k <= |t.keys| && Low(t.keys, lo, k) <= key < High(t.keys, hi, k)
    requires Apart(t) && Below(t, n)
    requires OutcomeOk(r, d, last && k == |t.keys|, Low(t.keys, lo, k), High(t.keys, hi, k)) && FromOld(t.kids[k], r, n)
    ensures OutcomeOk(Absorb(t, k, key, r), d + 1, last, lo, hi) && FromOld(t, Absorb(t, k, key, r), n)
  {
    AbsorbWF(t, d, key, k, r, last, lo, hi);
    if r.split.SplitOff? && |t.keys| == M { MiddleTells(t, d, k, key, r, lo, hi); }
    AbsorbFromOld(t, k, key, r, n);
  }

  /** An insertion into a child, taken in by its node, is an insertion into the node. */
  lemma InsertedUp(mem: Mem, mem1: Mem, mem2: Mem, t: Tree, d: nat, key: Key, v: Val, last: bool, lo: nat, hi: nat, k: nat, n: Addr, w: Trace)
    returns (w': Trace)
    requires NodeOk(t, d, lo, hi) && hi <= LIMIT && k <= |t.keys| && Low(t.keys, lo, k) <= key < High(t.keys, hi, k)
    requires Rep(mem, t) && Apart(t) && Below(t, n) && 0 < n
    requires Inserted(mem, mem1, t.kids[k], d, key, v, last && k == |t.keys|, Low(t.keys, lo, k), High(t.keys, hi, k), n, w)
    requires TakenIn(mem1, mem2, t, k, w.r)
    ensures w' == w.(r := Absorb(t, k, key, w.r), j := w'.j)
    ensures Inserted(mem, mem2, t, d + 1, key, v, last, lo, hi, n, w')
  {
    w' := w.(r := Absorb(t, k, key, w.r), j := |LeavesOf(t.kids[..k])| + w.j);
    RepUp(mem, mem1, mem2, t, d, key, v, last, lo, hi, k, n, w);
    FrameUp(mem, mem1, mem2, t, k, n, w.r.next);
    ShapeUp(t, d, key, last, lo, hi, k, n, w.r);
    ChainUp(t, d, key, v, last, lo, hi, k, n, w);
  }

  lemma ChainUp(t: Tree, d: nat, key: Key, v: Val, last: bool, lo: nat, hi: nat, k: nat, n: Addr, w: Trace)
    requires NodeOk(t, d, lo, hi) && hi <= LIMIT && k <= |t.keys| && Low(t.keys, lo, k) <= key < High(t.keys, hi, k)
    requires OutcomeOk(w.r, d, last && k == |t.keys|, Low(t.keys, lo, k), High(t.keys, hi, k))
    requires InChain(t.kids[k], key, v, last && k == |t.keys|, n, w)
    ensures InChain(t, key, v, last, n, w.(r := Absorb(t, k, key, w.r), j := |LeavesOf(t.kids[..k])| + w.j))
  {
    AbsorbGrown(t, d, k, key, w.r, w.j, w.leaf, LeafPair(w.lr), w.end, last, lo, hi);
  }

  // ---------------------------------------------------------------------------------------------
  // The far right end
  // ---------------------------------------------------------------------------------------------

  /** Leaf links as an insertion needs them: only the last leaf of the last part has no right neighbour. */
  ghost predicate RightEnds(mem: LeafMap, ls: seq<Tree>, last: bool) {
    forall i | 0 <= i < |ls| :: RightEndAt(mem, ls, last, i)
  }

  ghost predicate RightEndAt(mem: LeafMap, ls: seq<Tree>, last: bool, i: nat)
    requires i < |ls|
  {
    && ls[i].id in mem && mem[ls[i].id].right != ls[i].id && (mem[ls[i].id].right != 0 ==> mem[ls[i].id].right in mem)
    && (mem[ls[i].id].right == 0 <==> last && i == |ls| - 1)
  }

  lemma RightEndsWithin(mem: LeafMap, a: seq<Tree>, ls: seq<Tree>, b: seq<Tree>, last: bool)
    requires RightEnds(mem, a + ls + b, last)
    ensures RightEnds(mem, ls, last && b == [])
  {
    var here := last && b == [];
    forall i | 0 <= i < |ls| ensures RightEndAt(mem, ls, here, i) {
      assert (a + ls + b)[|a| + i] == ls[i];
      assert RightEndAt(mem, a + ls + b, last, |a| + i);
    }
  }

  lemma RightEndsOfKid(mem: LeafMap, t: Tree, d: nat, last: bool, lo: nat, hi: nat, k: nat)
    requires NodeOk(t, d, lo, hi) && hi <= LIMIT && k <= |t.keys| && RightEnds(mem, Leaves(t), last)
    ensures RightEnds(mem, Leaves(t.kids[k]), last && k == |t.keys|)
  {
    NodeSides(t, d, lo, hi, k);
    RightEndsWithin(mem, LeavesOf(t.kids[..k]), Leaves(t.kids[k]), LeavesOf(t.kids[k + 1..]), last);
  }

  /** What an insertion needs holds of the child that the key leads to. */
  lemma KidReady(mem: Mem, t: Tree, d: nat, key: Key, last: bool, lo: nat, hi: nat, n: Addr)
    requires NodeOk(t, d, lo, hi) && lo <= key < hi <= LIMIT && Rep(mem, t) && Apart(t) && Below(t, n) && RightEnds(mem.leaves, Leaves(t), last)
    ensures var k := UpperBound(t.keys, key);
            && k < |t.kids| && Rep(mem, t.kids[k]) && Apart(t.kids[k]) && Below(t.kids[k], n)
            && Low(t.keys, lo, k) <= key < High(t.keys, hi, k) <= LIMIT && WF(t.kids[k], d, Low(t.keys, lo, k), High(t.keys, hi, k))
            && RightEnds(mem.leaves, Leaves(t.kids[k]), last && k == |t.keys|)
  {
    var k := UpperBound(t.keys, key);
    ChildInRange(t, d, key, lo, hi);
    OwnsKid(t, k);
    RightEndsOfKid(mem.leaves, t, d, last, lo, hi, k);
  }

  lemma LinkedRightEnds(mem: LeafMap, ls: seq<Tree>)
    requires Linked(mem, ls)
    ensures RightEnds(mem, ls, true)
  {
    forall i | 0 <= i < |ls| ensures RightEndAt(mem, ls, true, i) {
      assert LinkedAt(mem, ls, i);
      if i + 1 < |ls| { assert LinkedAt(mem, ls, i + 1); }
    }
  }

  // ---------------------------------------------------------------------------------------------
  // Insertion into a leaf
  // ---------------------------------------------------------------------------------------------

  /** What becomes of a leaf lies in its own cell and a new one. */
  lemma LeafFromOld(t: Tree, r: Outcome, n: Addr)
    requires t.Leaf? && r.tree.Leaf? && r.tree.id == t.id && t.id < n <= r.next
    requires r.split.SplitOff? ==> r.split.right.Leaf? && r.split.right.id == n < r.next
    ensures FromOld(t, r, n)
  {
  }

  lemma LeafInChain(t: Tree, key: Key, v: Val, lo: nat, hi: nat, n: Addr, w: Trace)
    requires WF(t, 0, lo, hi) && hi <= LIMIT
    requires w.r == w.lr == LeafIns(t, key, v, w.end, n) && w.leaf == t && w.j == 0
    requires w.bump == (key !in t.keys) && (if key in t.keys then LeafHolds(t, key, w.val) else w.val == v)
    ensures InChain(t, key, v, w.end, n, w)
  {
    LeafInsShape(t, key, v, w.end, n);
    LeafGrown(t, w.r, key, w.end);
  }

  lemma LeafRep(mem: Mem, t: Tree)
    requires t.Leaf? && t.id != 0 && t.id in mem.leaves && LeafIs(mem.leaves[t.id], t.keys, t.vals)
    ensures Rep(mem, t)
  {
  }

  /** The key that a split leaf passes up is its right part's first. */
  lemma LeafInsShape(t: Tree, key: Key, v: Val, last: bool, n: Addr)
    requires t.Leaf? && |t.keys| == |t.vals| <= M
    ensures var r := LeafIns(t, key, v, last, n);
            && r.tree.Leaf? && r.tree.id == t.id && n <= r.next
            && (r.split.SplitOff? ==> r.split.right.Leaf? && r.split.right.id == n < r.next && 0 < |r.split.right.keys| && r.split.right.keys[0] == r.split.up)
  {
  }

  lemma LeafInserted(mem: Mem, mem': Mem, t: Tree, key: Key, v: Val, lo: nat, hi: nat, n: Addr, w: Trace)
    requires WF(t, 0, lo, hi) && lo <= key < hi <= LIMIT && t.id in mem.leaves && t.id != 0 && t.id < n
    requires w.r == w.lr == LeafIns(t, key, v, w.end, n) && w.leaf == t && w.j == 0
    requires w.bump == (key !in t.keys) && (if key in t.keys then LeafHolds(t, key, w.val) else w.val == v)
    requires mem'.inners == mem.inners && t.id in mem'.leaves && LeafIs(mem'.leaves[t.id], w.r.tree.keys, w.r.tree.vals)
    requires w.r.split.SplitOff? ==> w.r.split.right.id in mem'.leaves
                                     && LeafIs(mem'.leaves[w.r.split.right.id], w.r.split.right.keys, w.r.split.right.vals)
    requires forall x: Addr | x in mem.leaves && x != t.id :: x in mem'.leaves && SameEntries(mem.leaves[x], mem'.leaves[x])
    requires LeafStep(mem.leaves, mem'.leaves, t.id, SplitId(w.r), w.bump)
    ensures Inserted(mem, mem', t, 0, key, v, w.end, lo, hi, n, w)
  {
    LeafInsWF(t, key, v, w.end, n, lo, hi);
    LeafInChain(t, key, v, lo, hi, n, w);
    LeafInsShape(t, key, v, w.end, n);
    LeafFromOld(t, w.r, n);
    LeafRep(mem', w.r.tree);
    if w.r.split.SplitOff? { LeafRep(mem', w.r.split.right); }
    assert Owns(t, t.id);
  }

  /** Where a node's new right neighbour keeps the key that its entries start with. */
  ghost predicate UpIs(mem: Mem, d: nat, sib: Addr, up: Key) {
    if d == 0 then sib in mem.leaves && |mem.leaves[sib].keys| == M && mem.leaves[sib].keys[0] == up
    else sib in mem.inners && |mem.inners[sib].keys| == M && mem.inners[sib].keys[M - 1] == up
  }

  // ---------------------------------------------------------------------------------------------
  // The whole tree
  // ---------------------------------------------------------------------------------------------

  /** One insertion into the whole tree, seen from the chain of its leaves. */
  ghost predicate ChainStep(mem: LeafMap, mem': LeafMap, ls: seq<Tree>, ls': seq<Tree>, key: Key, v: Val, n: Addr, w: Trace) {
    && Grown(ls, ls', w.j, key, w.leaf, LeafPair(w.lr), w.end, true)
    && w.leaf.Leaf? && |w.leaf.keys| == |w.leaf.vals| <= M && w.lr == LeafIns(w.leaf, key, v, w.end, n)
    && LeafStep(mem, mem', w.leaf.id, SplitId(w.lr), w.bump) && w.bump == (key !in w.leaf.keys)
    && (if key in w.leaf.keys then LeafHolds(w.leaf, key, w.val) else w.val == v)
  }

  lemma StepKeepsLinks(mem: LeafMap, mem': LeafMap, ls: seq<Tree>, ls': seq<Tree>, key: Key, v: Val, n: Addr, w: Trace)
    requires ChainStep(mem, mem', ls, ls', key, v, n, w) && Linked(mem, ls) && 0 < n
    ensures Linked(mem', ls')
  {
    LeafInsShape(w.leaf, key, v, w.end, n);
    StepLinked(mem, mem', ls, w.j, w.lr, w.bump);
  }

  /** The two parts of a split tree under a new root. */
  lemma RootWF(r: Outcome, d: nat, id: nat, last: bool)
    requires r.split.SplitOff? && OutcomeOk(r, d, last, 0, LIMIT)
    ensures WF(Node(id, [r.split.up], [r.tree, r.split.right]), d + 1, 0, LIMIT)
  {
    var keys, kids := [r.split.up], [r.tree, r.split.right];
    assert Kid(keys, kids, d, 0, LIMIT, 0) && Kid(keys, kids, d, 0, LIMIT, 1);
    NodeIsFan(Node(id, keys, kids), d, 0, LIMIT);
  }

  lemma RootLeaves(r: Outcome, id: nat)
    requires r.split.SplitOff?
    ensures Leaves(Node(id, [r.split.up], [r.tree, r.split.right])) == OutcomeLeaves(r)
  {
    LeavesOfNode(Node(id, [r.split.up], [r.tree, r.split.right]));
    assert [r.tree, r.split.right] == [r.tree] + [r.split.right];
    LeavesOfConcat([r.tree], [r.split.right]);
    LeavesOfOne(r.tree);
    LeavesOfOne(r.split.right);
  }

  /** Every address that an outcome uses is below the next one. */
  lemma OutcomeBelow(t: Tree, r: Outcome, n: Addr)
    requires FromOld(t, r, n) && Below(t, n)
    ensures Below(r.tree, r.next) && (r.split.SplitOff? ==> Below(r.split.right, r.next))
  {
  }

  lemma RootCells(mem: Mem, mem': Mem, t: Tree, r: Outcome, n: Addr, id: Addr)
    requires FromOld(t, r, n) && Below(t, n) && r.split.SplitOff? && id == r.next && 0 < n
    requires Rep(mem, r.tree) && Rep(mem, r.split.right) && mem'.leaves == mem.leaves
    requires forall x: Addr | x in mem.inners && x < id :: x in mem'.inners && mem'.inners[x] == mem.inners[x]
    requires id in mem'.inners && InnerIs(mem'.inners[id], [r.split.up], [r.tree.id, r.split.right.id])
    ensures var root := Node(id, [r.split.up], [r.tree, r.split.right]);
            Rep(mem', root) && Apart(root) && Below(root, id + 1)
  {
    OutcomeBelow(t, r, n);
    var kids := [r.tree, r.split.right];
    assert IdsOf(kids) == [r.tree.id, r.split.right.id];
    RepKept(mem, mem', r.tree);
    RepKept(mem, mem', r.split.right);
    NodeRep(mem', id, [r.split.up], kids);
    assert forall x: Addr | Owns(r.split.right, x) :: !Owns(r.tree, x);
  }

  // ---------------------------------------------------------------------------------------------
  // Descending
  // ---------------------------------------------------------------------------------------------

  /** The subtree t spans the part of the chain all between a and b, and key belongs to it. */
  ghost predicate Spans(all: seq<Tree>, a: seq<Tree>, t: Tree, b: seq<Tree>, d: nat, key: Key, lo: nat, hi: nat) {
    all == a + Leaves(t) + b && WF(t, d, lo, hi) && lo <= key < hi <= LIMIT && AllIn(a, 0, lo) && AllIn(b, hi, LIMIT)
  }

  lemma SpansKid(all: seq<Tree>, a: seq<Tree>, t: Tree, b: seq<Tree>, d: nat, key: Key, lo: nat, hi: nat) returns (a': seq<Tree>, b': seq<Tree>)
    requires Spans(all, a, t, b, d + 1, key, lo, hi)
    ensures t.Node?
    ensures var k := UpperBound(t.keys, key);
            k < |t.kids| && k <= |t.keys| && Spans(all, a', t.kids[k], b', d, key, Low(t.keys, lo, k), High(t.keys, hi, k))
  {
    NodeIsFan(t, d, lo, hi);
    var k := UpperBound(t.keys, key);
    ChildInRange(t, d, key, lo, hi);
    NodeSides(t, d, lo, hi, k);
    var l, h := Low(t.keys, lo, k), High(t.keys, hi, k);
    a', b' := a + LeavesOf(t.kids[..k]), LeavesOf(t.kids[k + 1..]) + b;
    assert all == a' + Leaves(t.kids[k]) + b';
    WidenAll(a, 0, lo, 0, l);
    WidenAll(b, hi, LIMIT, h, LIMIT);
    ConcatIn(a, LeavesOf(t.kids[..k]), 0, l);
    ConcatIn(LeavesOf(t.kids[k + 1..]), b, h, LIMIT);
  }

  lemma ConcatIn(a: seq<Tree>, b: seq<Tree>, lo: nat, hi: nat)
    requires AllIn(a, lo, hi) && AllIn(b, lo, hi)
    ensures AllIn(a + b, lo, hi)
  {
    forall i | 0 <= i < |a + b| ensures InRange((a + b)[i].keys, lo, hi) {
      if i < |a| { assert InRange(a[i].keys, lo, hi); } else { assert InRange(b[i - |a|].keys, lo, hi); }
    }
  }

  lemma SpansLeaf(all: seq<Tree>, a: seq<Tree>, t: Tree, b: seq<Tree>, key: Key, lo: nat, hi: nat)
    requires Spans(all, a, t, b, 0, key, lo, hi)
    ensures Routed(all, |a|, key) && all[|a|] == t
  {
    RoutedAround(a, [t], b, 0, key, lo, hi);
  }
}
