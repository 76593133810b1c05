/** Serial replay of committed transactions.

    Every concurrency-control protocol of the repository promises the same thing: the committed
    transactions behave as if they had been run one after the other. This module says what that
    means, once, for all of them. A protocol supplies, for each committed transaction, the values
    it read, the values it wrote, and a stamp that places it in the serial order. */
module Serializability {

  type Key = nat

  /** A record's payload, as the words that memcpy moves. */
  type Value = seq<int>

  type Store = map<Key, Value>

  /** What a committed transaction observed and what it installed. */
  datatype Txn = Txn(observed: set<(Key, Value)>, installed: map<Key, Value>)

  // ---------------------------------------------------------------------------------------------
  // Serial execution
  // ---------------------------------------------------------------------------------------------

  ghost function Replay(init: Store, h: seq<Txn>): Store {
    if h == [] then init else Replay(init, h[..|h| - 1]) + h[|h| - 1].installed
  }

  ghost predicate ReadsMatch(st: Store, t: Txn) {
    forall k: Key, v: Value | (k, v) in t.observed :: k in st && st[k] == v
  }

  /** Running the transactions one at a time in this order gives every one of them its own reads. */
  ghost predicate Serial(init: Store, h: seq<Txn>) {
    forall i | 0 <= i < |h| :: ReadsMatch(Replay(init, h[..i]), h[i])
  }

  /** Transaction j is the last one before position i that writes k. */
  ghost predicate LastWriter(h: seq<Txn>, i: nat, k: Key, j: nat)
    requires i <= |h|
  {
    j < i && k in h[j].installed && forall m | j < m < i :: k !in h[m].installed
  }

  ghost predicate Unwritten(h: seq<Txn>, i: nat, k: Key)
    requires i <= |h|
  {
    forall m | 0 <= m < i :: k !in h[m].installed
  }

  lemma {:induction false} ReplayLastWriter(init: Store, h: seq<Txn>, k: Key, j: nat)
    requires LastWriter(h, |h|, k, j)
    ensures k in Replay(init, h) && Replay(init, h)[k] == h[j].installed[k]
  {
    if j < |h| - 1 {
      var p := h[..|h| - 1];
      assert p[j] == h[j] && forall m | j < m < |p| :: p[m] == h[m];
      ReplayLastWriter(init, p, k, j);
    }
  }

  lemma {:induction false} ReplayUnwritten(init: Store, h: seq<Txn>, k: Key)
    requires Unwritten(h, |h|, k)
    ensures k in Replay(init, h) <==> k in init
    ensures k in init ==> Replay(init, h)[k] == init[k]
  {
    if h != [] {
      var p := h[..|h| - 1];
      assert forall m | 0 <= m < |p| :: p[m] == h[m];
      ReplayUnwritten(init, p, k);
    }
  }

  /** If somebody else's write to k comes earlier in a serial order, the old value cannot be read. */
  lemma OverwrittenIsGone(init: Store, h: seq<Txn>, i: nat, j: nat, k: Key, v: Value)
    requires i < j < |h| && k in h[i].installed && (k, v) in h[j].observed
    requires forall m | 0 <= m < |h| && k in h[m].installed :: h[m].installed[k] != v
    ensures !Serial(init, h)
  {
    var p := h[..j];
    assert p[i] == h[i];
    var m := LastWriterExists(p, k);
    ReplayLastWriter(init, p, k, m);
    assert p[m] == h[m];
    assert !ReadsMatch(Replay(init, h[..j]), h[j]);
  }

  // ---------------------------------------------------------------------------------------------
  // Stamps
  // ---------------------------------------------------------------------------------------------

  /** A place in the serial order, compared lexicographically. */
  datatype Stamp = Stamp(major: nat, minor: nat)

  predicate Before(a: Stamp, b: Stamp) {
    a.major < b.major || (a.major == b.major && a.minor < b.minor)
  }

  /** The committed transactions of a run, by identifier. */
  type Committed = map<nat, Txn>

  ghost predicate Injective(stamp: map<nat, Stamp>) {
    forall a, b | a in stamp && b in stamp && a != b :: stamp[a] != stamp[b]
  }

  /** w is the writer of k with the greatest stamp below that of id. */
  ghost predicate LatestBefore(txns: Committed, stamp: map<nat, Stamp>, id: nat, k: Key, w: nat)
    requires txns.Keys == stamp.Keys && id in stamp
  {
    && w in txns && k in txns[w].installed && Before(stamp[w], stamp[id])
    && forall x | x in txns && k in txns[x].installed && Before(stamp[x], stamp[id]) :: x == w || Before(stamp[x], stamp[w])
  }

  ghost predicate NoneBefore(txns: Committed, stamp: map<nat, Stamp>, id: nat, k: Key)
    requires txns.Keys == stamp.Keys && id in stamp
  {
    forall x | x in txns && k in txns[x].installed :: !Before(stamp[x], stamp[id])
  }

  /** The value of k as of id's place in the serial order, or nothing when no value exists there. */
  ghost predicate ValueAt(init: Store, txns: Committed, stamp: map<nat, Stamp>, id: nat, k: Key, v: Value)
    requires txns.Keys == stamp.Keys && id in stamp
  {
    || (exists w :: LatestBefore(txns, stamp, id, k, w) && txns[w].installed[k] == v)
    || (NoneBefore(txns, stamp, id, k) && k in init && init[k] == v)
  }

  /** There is at most one such value. */
  lemma ValueAtUnique(init: Store, txns: Committed, stamp: map<nat, Stamp>, id: nat, k: Key, v: Value, v': Value)
    requires txns.Keys == stamp.Keys && id in stamp
    requires ValueAt(init, txns, stamp, id, k, v) && ValueAt(init, txns, stamp, id, k, v')
    ensures v == v'
  {
  }

  /** Every committed transaction read, for each key, the latest version before its own stamp. */
  ghost predicate ReadsLatest(init: Store, txns: Committed, stamp: map<nat, Stamp>)
    requires txns.Keys == stamp.Keys
  {
    forall id, k: Key, v: Value | id in txns && (k, v) in txns[id].observed :: ValueAt(init, txns, stamp, id, k, v)
  }

  /** order lists every committed transaction once, by increasing stamp. */
  ghost predicate Enumerates(order: seq<nat>, stamp: map<nat, Stamp>) {
    && (forall i | 0 <= i < |order| :: order[i] in stamp)
    && (forall a | a in stamp :: a in order)
    && (forall i, j | 0 <= i < j < |order| :: Before(stamp[order[i]], stamp[order[j]]))
  }

  ghost function Arrange(txns: Committed, order: seq<nat>): (h: seq<Txn>)
    requires forall i | 0 <= i < |order| :: order[i] in txns
    ensures |h| == |order| && forall i | 0 <= i < |h| :: h[i] == txns[order[i]]
  {
    seq(|order|, i requires 0 <= i < |order| => txns[order[i]])
  }

  /** Along an enumeration, positions and stamps agree. */
  lemma OrderIsStamp(order: seq<nat>, stamp: map<nat, Stamp>, i: nat, j: nat)
    requires Enumerates(order, stamp) && i < |order| && j < |order|
    ensures Before(stamp[order[i]], stamp[order[j]]) <==> i < j
  {
  }

  /** Reading the latest version before one's stamp is exactly being serializable in stamp order. */
  lemma SerializableInStampOrder(init: Store, txns: Committed, stamp: map<nat, Stamp>, order: seq<nat>)
    requires txns.Keys == stamp.Keys && Enumerates(order, stamp)
    ensures Serial(init, Arrange(txns, order)) <==> ReadsLatest(init, txns, stamp)
  {
    var h := Arrange(txns, order);
    forall i, k: Key, v: Value | 0 <= i < |h| && (k, v) in h[i].observed
      ensures (k in Replay(init, h[..i]) && Replay(init, h[..i])[k] == v) <==> ValueAt(init, txns, stamp, order[i], k, v)
    {
      ReplayIsValueAt(init, txns, stamp, order, i, k, v);
    }
    if ReadsLatest(init, txns, stamp) {
      forall i | 0 <= i < |h| ensures ReadsMatch(Replay(init, h[..i]), h[i]) { }
    }
    if Serial(init, h) {
      forall id, k: Key, v: Value | id in txns && (k, v) in txns[id].observed
        ensures ValueAt(init, txns, stamp, id, k, v)
      {
        var i :| 0 <= i < |order| && order[i] == id;
        assert ReadsMatch(Replay(init, h[..i]), h[i]);
      }
    }
  }

  /** The store a serial run has reached just before position i is the one the stamps describe. */
  lemma ReplayIsValueAt(init: Store, txns: Committed, stamp: map<nat, Stamp>, order: seq<nat>, i: nat, k: Key, v: Value)
    requires txns.Keys == stamp.Keys && Enumerates(order, stamp) && i < |order|
    ensures var st := Replay(init, Arrange(txns, order)[..i]);
            (k in st && st[k] == v) <==> ValueAt(init, txns, stamp, order[i], k, v)
  {
    var h := Arrange(txns, order);
    var p := h[..i];
    var id := order[i];
    if Unwritten(p, i, k) {
      ReplayUnwritten(init, p, k);
      forall m | 0 <= m < i ensures k !in txns[order[m]].installed { assert p[m] == txns[order[m]]; }
      forall x | x in txns && k in txns[x].installed ensures !Before(stamp[x], stamp[id]) {
        var m :| 0 <= m < |order| && order[m] == x;
        OrderIsStamp(order, stamp, m, i);
      }
    } else {
      var j := LastWriterExists(p, k);
      ReplayLastWriter(init, p, k, j);
      var w := order[j];
      OrderIsStamp(order, stamp, j, i);
      forall x | x in txns && k in txns[x].installed && Before(stamp[x], stamp[id])
        ensures x == w || Before(stamp[x], stamp[w])
      {
        var m :| 0 <= m < |order| && order[m] == x;
        OrderIsStamp(order, stamp, m, i);
        assert p[m] == txns[x];
        if m != j { OrderIsStamp(order, stamp, m, j); }
      }
      assert LatestBefore(txns, stamp, id, k, w);
      forall x | LatestBefore(txns, stamp, id, k, x) ensures x == w { }
    }
  }

  lemma {:induction false} LastWriterExists(h: seq<Txn>, k: Key) returns (j: nat)
    requires !Unwritten(h, |h|, k)
    ensures LastWriter(h, |h|, k, j)
  {
    if k in h[|h| - 1].installed {
      j := |h| - 1;
    } else {
      var p := h[..|h| - 1];
      assert !Unwritten(p, |p|, k) by {
        var m :| 0 <= m < |h| && k in h[m].installed;
        assert p[m] == h[m];
      }
      j := LastWriterExists(p, k);
      assert p[j] == h[j] && forall m | j < m < |p| :: p[m] == h[m];
    }
  }

  /** The store left by the whole serial run holds, for each key, the value of its greatest writer. */
  lemma FinalStore(init: Store, txns: Committed, stamp: map<nat, Stamp>, order: seq<nat>, k: Key, w: nat)
    requires txns.Keys == stamp.Keys && Enumerates(order, stamp)
    requires w in txns && k in txns[w].installed
    requires forall x | x in txns && k in txns[x].installed :: x == w || Before(stamp[x], stamp[w])
    ensures var st := Replay(init, Arrange(txns, order)); k in st && st[k] == txns[w].installed[k]
  {
    var h := Arrange(txns, order);
    var j :| 0 <= j < |order| && order[j] == w;
    forall m | j < m < |h| ensures k !in h[m].installed {
      OrderIsStamp(order, stamp, j, m);
    }
    ReplayLastWriter(init, h, k, j);
  }

  lemma FinalStoreUnwritten(init: Store, txns: Committed, stamp: map<nat, Stamp>, order: seq<nat>, k: Key)
    requires txns.Keys == stamp.Keys && Enumerates(order, stamp)
    requires forall x | x in txns :: k !in txns[x].installed
    ensures var st := Replay(init, Arrange(txns, order)); (k in st <==> k in init) && (k in init ==> st[k] == init[k])
  {
    ReplayUnwritten(init, Arrange(txns, order), k);
  }

  // ---------------------------------------------------------------------------------------------
  // Every finite set of distinct stamps can be put in order
  // ---------------------------------------------------------------------------------------------

  lemma {:induction false} EnumerationExists(stamp: map<nat, Stamp>) returns (order: seq<nat>)
    requires Injective(stamp)
    ensures Enumerates(order, stamp)
    decreases |stamp|
  {
    if stamp == map[] {
      order := [];
    } else {
      var top := Greatest(stamp, stamp.Keys);
      var rest := stamp - {top};
      assert rest.Keys == stamp.Keys - {top};
      assert |rest.Keys| < |stamp.Keys|;
      assert |rest.Keys| == |rest| && |stamp.Keys| == |stamp|;
      var lower := EnumerationExists(rest);
      order := lower + [top];
      forall a | a in stamp ensures a in order {
        if a == top { assert order[|lower|] == top; } else { assert a in rest; assert a in lower; }
      }
    }
  }

  lemma {:induction false} Greatest(stamp: map<nat, Stamp>, among: set<nat>) returns (top: nat)
    requires Injective(stamp) && among != {} && among <= stamp.Keys
    ensures top in among && forall a | a in among && a != top :: Before(stamp[a], stamp[top])
    decreases among
  {
    var a :| a in among;
    if among == {a} {
      top := a;
    } else {
      var rest := among - {a};
      assert among == rest + {a};
      var t := Greatest(stamp, rest);
      top := if Before(stamp[a], stamp[t]) then t else a;
      assert stamp[a] != stamp[t];
    }
  }
}
