/** The promises of the lease protocol, over whole runs: those with atomic renewals, and all calm ones. */
module SundialTheorems {
  import opened Sundial
  import opened SundialSafety
  import opened SundialCalm
  import S = Serializability

  ghost function Observed(t: Txn): set<(Key, Value)> {
    (set i | 0 <= i < |t.rset| :: (t.rset[i].k, t.rset[i].val)) + (set k | k in t.wset :: (k, t.wset[k].base))
  }

  ghost function CommittedTxns(s: State): S.Committed {
    map id | id in s.txns && Committed(s.txns[id]) :: S.Txn(Observed(s.txns[id]), map k | k in s.txns[id].wset :: s.txns[id].wset[k].val)
  }

  /** The serial order is by commit time, and by the order of decisions where commit times agree. */
  ghost function Stamps(s: State): map<nat, S.Stamp> {
    map id | id in s.txns && Committed(s.txns[id]) :: S.Stamp(s.txns[id].commit, s.txns[id].point)
  }

  predicate CommittedWriter(s: State, x: nat, k: Key) {
    Writes(s, x, k) && Committed(s.txns[x])
  }

  /** A transaction that is committed but has not installed its write to k. */
  predicate Pending(s: State, x: nat, k: Key) {
    CommittedWriter(s, x, k) && s.txns[x].wset[k].stage.Held?
  }

  /** A committed writer is pending, or has installed its version. */
  lemma WriterIsKnown(s: State, x: nat, k: Key)
    requires Inv(s) && CommittedWriter(s, x, k) && k in s.recs
    ensures Pending(s, x, k) || (exists j :: 0 <= j < |s.recs[k].hist| && s.recs[k].hist[j] == x)
    ensures Pending(s, x, k) ==> s.recs[k].rts < CommitOf(s, x)
  {
    Known(s, x, k);
    if !Pending(s, x, k) { assert s.recs[k].hist[s.txns[x].wset[k].ver] == x; }
  }

  /** If the writers of versions up to m come before id, and all others, installed or pending, do not,
      then version m is what id must read. */
  lemma VersionIsValueAt(s: State, id: nat, k: Key, m: nat)
    requires Inv(s) && id in s.txns && Committed(s.txns[id]) && k in s.recs && m <= |s.recs[k].hist|
    requires forall j | 0 <= j < m && s.recs[k].hist[j] in Stamps(s) :: S.Before(Stamps(s)[s.recs[k].hist[j]], Stamps(s)[id])
    requires forall j | m <= j < |s.recs[k].hist| :: s.recs[k].hist[j] == id || CommitOf(s, id) < CommitOf(s, s.recs[k].hist[j])
    requires forall x | Pending(s, x, k) :: x == id || CommitOf(s, id) < CommitOf(s, x)
    ensures S.ValueAt(s.init, CommittedTxns(s), Stamps(s), id, k, Ver(s, k, m))
  {
    var txns, stamp, hist := CommittedTxns(s), Stamps(s), s.recs[k].hist;
    assert KeyInv(s, k) && RecOk(s, k);
    assert forall x | x in txns :: k in txns[x].installed <==> CommittedWriter(s, x, k);
    forall x | x in txns && k in txns[x].installed && S.Before(stamp[x], stamp[id])
      ensures exists j :: 0 <= j < m && hist[j] == x
    {
      WriterIsKnown(s, x, k);
    }
    if m == 0 {
      assert S.NoneBefore(txns, stamp, id, k);
    } else {
      var w := hist[m - 1];
      assert HistOk(s, k, m - 1);
      forall x | x in txns && k in txns[x].installed && S.Before(stamp[x], stamp[id])
        ensures x == w || S.Before(stamp[x], stamp[w])
      {
        var j :| 0 <= j < m && hist[j] == x;
        assert HistOk(s, k, j);
      }
      assert S.LatestBefore(txns, stamp, id, k, w);
    }
  }

  lemma ReadIsValueAt(s: State, id: nat, i: nat)
    requires Inv(s) && id in s.txns && Committed(s.txns[id]) && i < |s.txns[id].rset|
    ensures var item := s.txns[id].rset[i];
            S.ValueAt(s.init, CommittedTxns(s), Stamps(s), id, item.k, item.val)
  {
    var item := s.txns[id].rset[i];
    var k, m := item.k, item.ver;
    assert TxnOk(s, id);
    Known(s, id, k);
    assert ReadOk(s, id, i);
    var hist := s.recs[k].hist;
    forall j | m <= j < |hist| ensures CommitOf(s, id) < CommitOf(s, hist[j]) {
      if m < j { WtsIncrease(s, k, m + 1, j + 1); }
    }
    forall j | 0 <= j < m && hist[j] in Stamps(s) ensures S.Before(Stamps(s)[hist[j]], Stamps(s)[id]) {
      if j + 1 < m { WtsIncrease(s, k, j + 1, m); }
    }
    forall x | Pending(s, x, k) ensures CommitOf(s, id) < CommitOf(s, x) {
      WriterIsKnown(s, x, k);
      if m < |hist| { LastIsLatest(s, k, m + 1); }
    }
    VersionIsValueAt(s, id, k, m);
  }

  lemma LastIsLatest(s: State, k: Key, m: nat)
    requires k in s.recs && RecOk(s, k) && m <= |s.recs[k].hist|
    ensures WtsOf(s, k, m) <= s.recs[k].wts
  {
    if m < |s.recs[k].hist| { WtsIncrease(s, k, m, |s.recs[k].hist|); }
  }

  /** The value a committed writer based its write on is the latest before its commit time. */
  lemma LockedReadIsValueAt(s: State, id: nat, k: Key)
    requires Inv(s) && CommittedWriter(s, id, k) && k in s.recs
    ensures S.ValueAt(s.init, CommittedTxns(s), Stamps(s), id, k, s.txns[id].wset[k].base)
  {
    Known(s, id, k);
    var hist := s.recs[k].hist;
    var m := s.txns[id].wset[k].ver;
    if Pending(s, id, k) {
      forall j | 0 <= j < |hist| ensures CommitOf(s, hist[j]) < CommitOf(s, id) { LastIsLatest(s, k, j + 1); }
      forall x | Pending(s, x, k) ensures x == id { Known(s, x, k); }
    } else {
      forall j | 0 <= j < m ensures CommitOf(s, hist[j]) < CommitOf(s, id) { WtsIncrease(s, k, j + 1, m + 1); }
      forall j | m < j < |hist| ensures CommitOf(s, id) < CommitOf(s, hist[j]) { WtsIncrease(s, k, m + 1, j + 1); }
      forall x | Pending(s, x, k) ensures CommitOf(s, id) < CommitOf(s, x) {
        WriterIsKnown(s, x, k);
        LastIsLatest(s, k, m + 1);
      }
    }
    VersionIsValueAt(s, id, k, m);
  }

  lemma CommittedReadsLatest(s: State)
    requires Inv(s)
    ensures S.ReadsLatest(s.init, CommittedTxns(s), Stamps(s))
  {
    var txns := CommittedTxns(s);
    forall id, k: Key, v: Value | id in txns && (k, v) in txns[id].observed
      ensures S.ValueAt(s.init, txns, Stamps(s), id, k, v)
    {
      var t := s.txns[id];
      assert TxnOk(s, id);
      if i :| 0 <= i < |t.rset| && t.rset[i].k == k && t.rset[i].val == v {
        ReadIsValueAt(s, id, i);
      } else {
        LockedReadIsValueAt(s, id, k);
      }
    }
  }

  lemma StampsInjective(s: State)
    requires Inv(s)
    ensures S.Injective(Stamps(s))
  {
    forall a, b | a in Stamps(s) && b in Stamps(s) && a != b ensures Stamps(s)[a] != Stamps(s)[b] {
      assert PointsDiffer(s, a, b) && TxnOk(s, a);
    }
  }

  /** In every calm run, at every step, replaying the committed transactions by commit time, and by
      decision where those agree, gives each of them exactly the values it read. */
  lemma SerializableIfCalm(run: seq<State>, i: nat, order: seq<nat>)
    requires Run(run) && i < |run| && run[i].calm
    requires S.Enumerates(order, Stamps(run[i]))
    ensures S.Serial(run[i].init, S.Arrange(CommittedTxns(run[i]), order))
  {
    RunInv(run, i);
    CommittedReadsLatest(run[i]);
    S.SerializableInStampOrder(run[i].init, CommittedTxns(run[i]), Stamps(run[i]), order);
  }

  /** If renewals are atomic and no repeated release frees somebody else's lock, every run is serializable. */
  lemma Serializable(run: seq<State>, i: nat, order: seq<nat>)
    requires Run(run) && Orderly(run) && i < |run|
    requires S.Enumerates(order, Stamps(run[i]))
    ensures S.Serial(run[i].init, S.Arrange(CommittedTxns(run[i]), order))
  {
    OrderlyIsCalm(run, i);
    SerializableIfCalm(run, i, order);
  }

  lemma CommitOrderExists(run: seq<State>, i: nat) returns (order: seq<nat>)
    requires Run(run) && i < |run| && run[i].calm
    ensures S.Enumerates(order, Stamps(run[i]))
  {
    RunInv(run, i);
    StampsInjective(run[i]);
    order := S.EnumerationExists(Stamps(run[i]));
  }

  /** A record that no committed transaction has yet to write contains what the serial replay leaves. */
  lemma StoreIsReplay(run: seq<State>, i: nat, order: seq<nat>, k: Key)
    requires Run(run) && i < |run| && run[i].calm && k in run[i].recs && S.Enumerates(order, Stamps(run[i]))
    requires forall x | x in run[i].txns :: !Pending(run[i], x, k)
    ensures var st := S.Replay(run[i].init, S.Arrange(CommittedTxns(run[i]), order));
            k in st && st[k] == run[i].recs[k].val
  {
    RunInv(run, i);
    FinalValue(run[i], order, k);
  }

  lemma FinalValue(s: State, order: seq<nat>, k: Key)
    requires Inv(s) && k in s.recs && S.Enumerates(order, Stamps(s))
    requires forall x | x in s.txns :: !Pending(s, x, k)
    ensures var st := S.Replay(s.init, S.Arrange(CommittedTxns(s), order)); k in st && st[k] == s.recs[k].val
  {
    var txns, stamp, hist := CommittedTxns(s), Stamps(s), s.recs[k].hist;
    assert KeyInv(s, k) && RecOk(s, k);
    assert forall x | x in txns :: k in txns[x].installed <==> CommittedWriter(s, x, k);
    forall j | 0 <= j < |hist| ensures hist[j] in stamp { assert HistOk(s, k, j); }
    forall x | x in txns && k in txns[x].installed
      ensures hist != [] && (x == hist[|hist| - 1] || S.Before(stamp[x], stamp[hist[|hist| - 1]]))
    {
      WriterIsKnown(s, x, k);
      var j :| 0 <= j < |hist| && hist[j] == x;
      assert HistOk(s, k, j);
    }
    if hist == [] {
      S.FinalStoreUnwritten(s.init, txns, stamp, order, k);
    } else {
      assert HistOk(s, k, |hist| - 1);
      S.FinalStore(s.init, txns, stamp, order, k, hist[|hist| - 1]);
    }
  }

  // ---------------------------------------------------------------------------------------------
  // Versions and leases
  // ---------------------------------------------------------------------------------------------

  /** Each record's versions carry strictly increasing times, the last of which is in the record. */
  lemma VersionTimesIncrease(run: seq<State>, i: nat, k: Key, m: nat, n: nat)
    requires Run(run) && i < |run| && run[i].calm && k in run[i].recs && m < n <= |run[i].recs[k].hist|
    ensures WtsOf(run[i], k, m) < WtsOf(run[i], k, n) <= run[i].recs[k].wts == WtsOf(run[i], k, |run[i].recs[k].hist|)
  {
    RunInv(run, i);
    assert KeyInv(run[i], k);
    WtsIncrease(run[i], k, m, n);
  }

  /** A committed transaction is never changed except to be finished. */
  ghost predicate SameCommitted(a: Txn, b: Txn) {
    && Committed(b) && b.commit == a.commit && b.rset == a.rset && b.wset.Keys == a.wset.Keys
    && forall k | k in a.wset :: b.wset[k].base == a.wset[k].base && b.wset[k].val == a.wset[k].val
  }

  lemma CommittedStaysWhole(s: State, s': State, step: Step, id: nat)
    requires NextBy(s, s', step) && IsWhole(step) && id in s.txns && Committed(s.txns[id])
    ensures id in s'.txns && SameCommitted(s.txns[id], s'.txns[id])
  {
  }

  lemma CommittedStaysLocal(s: State, s': State, step: Step, id: nat)
    requires NextBy(s, s', step) && !IsWhole(step) && id in s.txns && Committed(s.txns[id])
    ensures id in s'.txns && SameCommitted(s.txns[id], s'.txns[id])
  {
  }

  lemma {:induction false} CommittedStays(run: seq<State>, i: nat, j: nat, id: nat)
    requires Run(run) && i <= j < |run| && id in run[i].txns && Committed(run[i].txns[id])
    ensures id in run[j].txns && SameCommitted(run[i].txns[id], run[j].txns[id])
  {
    if i < j {
      CommittedStays(run, i, j - 1, id);
      assert StepAt(run, j - 1);
      var step :| NextBy(run[j - 1], run[j], step);
      if IsWhole(step) { CommittedStaysWhole(run[j - 1], run[j], step, id); } else { CommittedStaysLocal(run[j - 1], run[j], step, id); }
    }
  }

  /** What a transaction with commit time c has read is, then and for ever after, the version with
      the greatest write time not above c, however many versions are still to be installed. */
  lemma ReadIsLatestIfCalm(run: seq<State>, i: nat, j: nat, id: nat, r: nat)
    requires Run(run) && i <= j < |run| && run[j].calm
    requires id in run[i].txns && Committed(run[i].txns[id]) && r < |run[i].txns[id].rset|
    ensures var c, item, s := run[i].txns[id].commit, run[i].txns[id].rset[r], run[j];
            && item.k in s.recs && item.ver <= |s.recs[item.k].hist|
            && item.val == Ver(s, item.k, item.ver) && item.wts == WtsOf(s, item.k, item.ver) <= c
            && forall n: nat | n <= |s.recs[item.k].hist| :: n <= item.ver <==> WtsOf(s, item.k, n) <= c
  {
    CommittedStays(run, i, j, id);
    RunInv(run, j);
    var s := run[j];
    var item := s.txns[id].rset[r];
    assert TxnOk(s, id);
    Known(s, id, item.k);
    assert ReadOk(s, id, r);
    forall n: nat | n <= |s.recs[item.k].hist| ensures n <= item.ver <==> WtsOf(s, item.k, n) <= s.txns[id].commit {
      if n < item.ver { WtsIncrease(s, item.k, n, item.ver); }
      if item.ver + 1 < n { WtsIncrease(s, item.k, item.ver + 1, n); }
    }
  }

  /** So it is in every run with atomic renewals in which no repeated release frees somebody else's lock. */
  lemma ReadIsLatestForever(run: seq<State>, i: nat, j: nat, id: nat, r: nat)
    requires Run(run) && Orderly(run) && i <= j < |run|
    requires id in run[i].txns && Committed(run[i].txns[id]) && r < |run[i].txns[id].rset|
    ensures var c, item, s := run[i].txns[id].commit, run[i].txns[id].rset[r], run[j];
            && item.k in s.recs && item.ver <= |s.recs[item.k].hist|
            && item.val == Ver(s, item.k, item.ver) && item.wts == WtsOf(s, item.k, item.ver) <= c
            && forall n: nat | n <= |s.recs[item.k].hist| :: n <= item.ver <==> WtsOf(s, item.k, n) <= c
  {
    OrderlyIsCalm(run, j);
    ReadIsLatestIfCalm(run, i, j, id, r);
  }

  /** A lease that is skipped at renewal because it already reaches the commit time is sound: no
      version that starts at or before that time can still be installed over the one that was read. */
  lemma LeaseIsKept(run: seq<State>, i: nat, id: nat, r: nat, x: nat)
    requires Run(run) && i + 1 < |run| && run[i].calm && id in run[i].txns && r < |run[i].txns[id].rset|
    requires var item := run[i].txns[id].rset[r];
             item.k in run[i].recs && item.ver == |run[i].recs[item.k].hist| && Install(run[i], run[i + 1], x, item.k)
    ensures run[i].txns[id].rset[r].lease < run[i].txns[x].commit
  {
    RunInv(run, i);
    var k := run[i].txns[id].rset[r].k;
    Known(run[i], id, k);
    Known(run[i], x, k);
    assert ReadOk(run[i], id, r);
  }

  /** The lock is exclusive: at most one transaction is between taking and freeing it. */
  lemma OneHolder(run: seq<State>, i: nat, k: Key, a: nat, b: nat)
    requires Run(run) && i < |run| && run[i].calm && k in run[i].recs && a in run[i].txns && b in run[i].txns
    requires Holds(run[i].txns[a], k) && Holds(run[i].txns[b], k)
    ensures a == b == run[i].recs[k].lock
  {
    RunInv(run, i);
    Known(run[i], a, k);
    Known(run[i], b, k);
  }

  /** A transaction that reads and writes the same record never commits: its own lock stops the
      renewal that its own write makes necessary. */
  lemma NoReadAndWrite(run: seq<State>, i: nat, id: nat, r: nat)
    requires Run(run) && i < |run| && run[i].calm && id in run[i].txns && Committed(run[i].txns[id]) && r < |run[i].txns[id].rset|
    ensures run[i].txns[id].rset[r].k !in run[i].txns[id].wset
  {
    RunInv(run, i);
    assert TxnOk(run[i], id);
    Known(run[i], id, run[i].txns[id].rset[r].k);
    assert ReadOk(run[i], id, r);
  }
}
