/** The promises of the multiversion protocol, over whole runs. */
module MvccTheorems {
  import opened Mvcc
  import opened MvccSafety
  import S = Serializability

  // ---------------------------------------------------------------------------------------------
  // Reads
  // ---------------------------------------------------------------------------------------------

  ghost predicate CommittedWriter(s: State, x: nat, k: Key) {
    Writes(s, x, k) && s.txns[x].status == Committed
  }

  /** w is the version of k that a transaction with timestamp t must see: the largest one below t. */
  ghost predicate VersionFor(s: State, w: nat, t: nat, k: Key) {
    && w < t && (w == INIT_WTS || CommittedWriter(s, w, k))
    && forall x: nat | CommittedWriter(s, x, k) :: x <= w || t <= x
  }

  ghost predicate EntryKept(s: State, s': State, t: nat, k: Key)
    requires t in s.txns && k in s.txns[t].rset
  {
    t in s'.txns && k in s'.txns[t].rset && s'.txns[t].rset[k] == s.txns[t].rset[k]
  }

  lemma StepKeepsEntry(s: State, s': State, step: Step, t: nat, k: Key)
    requires NextBy(s, s', step) && t in s.txns && k in s.txns[t].rset
    requires step.BeginStep? ==> step.t !in s.txns
    requires s.txns[t].op.Copying? ==> s.txns[t].op.k != k
    ensures EntryKept(s, s', t, k)
  {
  }

  /** What t read stays in its read set, whatever happens later. */
  lemma EntryStays(s: State, s': State, t: nat, k: Key)
    requires Inv(s) && Next(s, s') && t in s.txns && k in s.txns[t].rset
    ensures EntryKept(s, s', t, k)
  {
    var step :| NextBy(s, s', step);
    assert TxnOk(s, t);
    Known(s, t, k);
    if step.BeginStep? { FreshTimestamp(s, step.c); }
    StepKeepsEntry(s, s', step, t, k);
  }

  lemma {:induction false} EntryStaysForever(run: seq<State>, i: nat, j: nat, t: nat, k: Key)
    requires Run(run) && i <= j < |run| && t in run[i].txns && k in run[i].txns[t].rset
    ensures EntryKept(run[i], run[j], t, k)
  {
    if i < j {
      EntryStaysForever(run, i, j - 1, t, k);
      RunInv(run, j - 1);
      assert StepAt(run, j - 1);
      EntryStays(run[j - 1], run[j], t, k);
    }
  }

  /** A read that passed its recheck at step i returned the version with the largest timestamp below
      its own, counting every writer that has committed by any later step j; and it returned that
      version's bytes when every word had been stored before it was copied, as is always the case when
      no commit had replaced the slot between the check and the second load. */
  lemma ReadIsLatestForever(run: seq<State>, i: nat, j: nat, t: nat, k: Key)
    requires Run(run) && i <= j < |run| && t in run[i].txns && k in run[i].txns[t].rset
    ensures VersionFor(run[j], run[i].txns[t].rset[k].ver, t, k)
    ensures run[i].txns[t].rset[k].Clean() ==> run[i].txns[t].rset[k].whole
    ensures run[i].txns[t].rset[k].whole ==> run[i].txns[t].rset[k].val == ValOf(run[j], run[i].txns[t].rset[k].ver, k)
  {
    EntryStaysForever(run, i, j, t, k);
    var s := run[j];
    RunInv(run, j);
    assert TxnOk(s, t);
    Known(s, t, k);
    forall x: nat | CommittedWriter(s, x, k) ensures x <= s.txns[t].rset[k].ver || t <= x {
      assert NoneBetween(s, t, x, k);
    }
  }

  /** The value read under a write lock is the latest below the writer: forever, since i may be any
      state after the commit. */
  lemma LockedReadIsLatest(run: seq<State>, i: nat, t: nat, k: Key)
    requires Run(run) && i < |run| && CommittedWriter(run[i], t, k)
    ensures VersionFor(run[i], run[i].txns[t].wset[k].base, t, k)
    ensures run[i].txns[t].wset[k].baseVal == ValOf(run[i], run[i].txns[t].wset[k].base, k)
  {
    RunInv(run, i);
    BaseIsLatest(run[i], t, k);
  }

  lemma BaseIsLatest(s: State, t: nat, k: Key)
    requires Inv(s) && CommittedWriter(s, t, k)
    ensures VersionFor(s, s.txns[t].wset[k].base, t, k)
    ensures s.txns[t].wset[k].baseVal == ValOf(s, s.txns[t].wset[k].base, k)
  {
    assert TxnOk(s, t);
    Known(s, t, k);
    forall x: nat | CommittedWriter(s, x, k) ensures x <= s.txns[t].wset[k].base || t <= x {
      assert NoneBetween(s, t, x, k);
    }
  }

  // ---------------------------------------------------------------------------------------------
  // Serializability
  // ---------------------------------------------------------------------------------------------

  ghost function Observed(a: Attempt): set<(Key, Value)> {
    (set k | k in a.rset :: (k, a.rset[k].val)) + (set k | k in a.wset :: (k, a.wset[k].baseVal))
  }

  ghost function Outcome(a: Attempt): S.Txn {
    S.Txn(Observed(a), map k | k in a.wset :: a.wset[k].val)
  }

  ghost function CommittedTxns(s: State): S.Committed {
    map t | t in s.txns && s.txns[t].status == Committed :: Outcome(s.txns[t])
  }

  /** The serial order is the order of timestamps. */
  ghost function Stamps(s: State): map<nat, S.Stamp> {
    map t | t in s.txns && s.txns[t].status == Committed :: S.Stamp(t, 0)
  }

  /** No committed read copied a word before it was stored. */
  ghost predicate AllWhole(s: State) {
    forall t, k | t in s.txns && s.txns[t].status == Committed && k in s.txns[t].rset :: s.txns[t].rset[k].whole
  }

  /** Every committed read has the bytes of the version whose timestamp it loaded. */
  ghost predicate AllRight(s: State) {
    forall t, k | t in s.txns && s.txns[t].status == Committed && k in s.txns[t].rset ::
      s.txns[t].rset[k].val == ValOf(s, s.txns[t].rset[k].ver, k)
  }

  lemma VersionIsValueAt(s: State, w: nat, t: nat, k: Key)
    requires Inv(s) && t in s.txns && s.txns[t].status == Committed && k in s.recs
    requires VersionFor(s, w, t, k)
    ensures S.ValueAt(s.init, CommittedTxns(s), Stamps(s), t, k, ValOf(s, w, k))
  {
    var txns, stamp := CommittedTxns(s), Stamps(s);
    assert forall x | x in txns :: k in txns[x].installed <==> CommittedWriter(s, x, k);
    forall x | x in txns ensures INIT_WTS < x { assert TxnOk(s, x); }
    if w == INIT_WTS {
      assert S.NoneBefore(txns, stamp, t, k);
    } else {
      assert S.LatestBefore(txns, stamp, t, k, w);
    }
  }

  /** The version whose timestamp was loaded is the one to read, whatever bytes came with it. */
  lemma VersionReadIsLatest(s: State, t: nat, k: Key)
    requires Inv(s) && t in s.txns && s.txns[t].status == Committed && k in s.txns[t].rset
    ensures S.ValueAt(s.init, CommittedTxns(s), Stamps(s), t, k, ValOf(s, s.txns[t].rset[k].ver, k))
  {
    assert TxnOk(s, t);
    Known(s, t, k);
    var ver := s.txns[t].rset[k].ver;
    forall x: nat | CommittedWriter(s, x, k) ensures x <= ver || t <= x { assert NoneBetween(s, t, x, k); }
    VersionIsValueAt(s, ver, t, k);
  }

  lemma CommittedReadsLatest(s: State)
    requires Inv(s) && AllRight(s)
    ensures S.ReadsLatest(s.init, CommittedTxns(s), Stamps(s))
  {
    var txns, stamp := CommittedTxns(s), Stamps(s);
    forall t, k: Key, v: Value | t in txns && (k, v) in txns[t].observed
      ensures S.ValueAt(s.init, txns, stamp, t, k, v)
    {
      var a := s.txns[t];
      assert TxnOk(s, t);
      if k in a.rset && v == a.rset[k].val {
        VersionReadIsLatest(s, t, k);
      } else {
        BaseIsLatest(s, t, k);
        VersionIsValueAt(s, a.wset[k].base, t, k);
      }
    }
  }

  lemma LatestReadsAreRight(s: State)
    requires Inv(s) && S.ReadsLatest(s.init, CommittedTxns(s), Stamps(s))
    ensures AllRight(s)
  {
    var txns, stamp := CommittedTxns(s), Stamps(s);
    forall t, k | t in s.txns && s.txns[t].status == Committed && k in s.txns[t].rset
      ensures s.txns[t].rset[k].val == ValOf(s, s.txns[t].rset[k].ver, k)
    {
      VersionReadIsLatest(s, t, k);
      assert (k, s.txns[t].rset[k].val) in txns[t].observed;
      S.ValueAtUnique(s.init, txns, stamp, t, k, s.txns[t].rset[k].val, ValOf(s, s.txns[t].rset[k].ver, k));
    }
  }

  /** In every run, at every step, replaying the committed transactions in timestamp order gives each
      of them exactly the values it read, if and only if no read returned other bytes than those of
      the version whose timestamp it loaded. */
  lemma SerializableExactlyWhen(run: seq<State>, i: nat, order: seq<nat>)
    requires Run(run) && i < |run| && S.Enumerates(order, Stamps(run[i]))
    ensures S.Serial(run[i].init, S.Arrange(CommittedTxns(run[i]), order)) <==> AllRight(run[i])
  {
    var s := run[i];
    RunInv(run, i);
    S.SerializableInStampOrder(s.init, CommittedTxns(s), Stamps(s), order);
    if AllRight(s) { CommittedReadsLatest(s); }
    if S.ReadsLatest(s.init, CommittedTxns(s), Stamps(s)) { LatestReadsAreRight(s); }
  }

  /** So it does whenever every word was stored before it was copied. */
  lemma Serializable(run: seq<State>, i: nat, order: seq<nat>)
    requires Run(run) && i < |run| && AllWhole(run[i])
    requires S.Enumerates(order, Stamps(run[i]))
    ensures S.Serial(run[i].init, S.Arrange(CommittedTxns(run[i]), order))
  {
    var s := run[i];
    RunInv(run, i);
    forall t, k | t in s.txns && s.txns[t].status == Committed && k in s.txns[t].rset
      ensures s.txns[t].rset[k].val == ValOf(s, s.txns[t].rset[k].ver, k)
    {
      assert TxnOk(s, t);
      Known(s, t, k);
    }
    SerializableExactlyWhen(run, i, order);
  }

  // ---------------------------------------------------------------------------------------------
  // Reads that choose and load their slot in one go
  // ---------------------------------------------------------------------------------------------

  ghost predicate LoadsAt(run: seq<State>, i: nat, t: nat, k: Key)
    requires i + 1 < |run|
  {
    ReadLoad(run[i], run[i + 1], t, k)
  }

  ghost predicate InOneGo(run: seq<State>, i: nat, t: nat, k: Key)
    requires i < |run|
  {
    2 <= i && ReadCheck(run[i - 2], run[i - 1], t, k) && ReadBump(run[i - 1], run[i], t, k)
  }

  /** Every read loads the slot's timestamp right after its check and its increase of rts. */
  ghost predicate AtomicChecks(run: seq<State>) {
    forall i: nat, t, k | i + 1 < |run| && LoadsAt(run, i, t, k) :: InOneGo(run, i, t, k)
  }

  ghost predicate ReadsClean(a: Attempt) {
    (a.op.Copying? ==> a.op.b == a.op.w) && forall k | k in a.rset :: a.rset[k].Clean()
  }

  lemma OthersKeepClean(s: State, s': State, step: Step, t: nat)
    requires NextBy(s, s', step) && !step.ReadLoadStep? && t in s'.txns && (t in s.txns ==> ReadsClean(s.txns[t]))
    ensures ReadsClean(s'.txns[t])
  {
  }

  lemma LoadKeepsClean(s0: State, s1: State, s: State, s': State, t: nat, k: Key, x: nat)
    requires ReadCheck(s0, s1, t, k) && ReadBump(s1, s, t, k) && ReadLoad(s, s', t, k) && x in s'.txns && ReadsClean(s.txns[x])
    ensures ReadsClean(s'.txns[x])
  {
  }

  lemma {:induction false} AtomicIsClean(run: seq<State>, i: nat, t: nat)
    requires Run(run) && AtomicChecks(run) && i < |run| && t in run[i].txns
    ensures ReadsClean(run[i].txns[t])
  {
    if i > 0 {
      assert StepAt(run, i - 1);
      var step :| NextBy(run[i - 1], run[i], step);
      if t in run[i - 1].txns { AtomicIsClean(run, i - 1, t); }
      if step.ReadLoadStep? {
        assert LoadsAt(run, i - 1, step.t, step.k) && InOneGo(run, i - 1, step.t, step.k);
        LoadKeepsClean(run[i - 3], run[i - 2], run[i - 1], run[i], step.t, step.k, t);
      } else {
        OthersKeepClean(run[i - 1], run[i], step, t);
      }
    }
  }

  /** If a read's check and its load of the slot's timestamp are one step, every run is serializable. */
  lemma SerializableIfAtomic(run: seq<State>, i: nat, order: seq<nat>)
    requires Run(run) && AtomicChecks(run) && i < |run|
    requires S.Enumerates(order, Stamps(run[i]))
    ensures S.Serial(run[i].init, S.Arrange(CommittedTxns(run[i]), order))
  {
    var s := run[i];
    RunInv(run, i);
    forall t, k | t in s.txns && s.txns[t].status == Committed && k in s.txns[t].rset ensures s.txns[t].rset[k].whole {
      AtomicIsClean(run, i, t);
      assert TxnOk(s, t);
      Known(s, t, k);
    }
    Serializable(run, i, order);
  }

  /** Such an order always exists. */
  lemma TimestampOrderExists(s: State) returns (order: seq<nat>)
    ensures S.Enumerates(order, Stamps(s))
  {
    order := S.EnumerationExists(Stamps(s));
  }

  /** Once no commit is half installed on k, the newest slot holds what the serial replay leaves. */
  lemma NewestSlotIsReplay(run: seq<State>, i: nat, order: seq<nat>, k: Key)
    requires Run(run) && i < |run| && k in run[i].recs && S.Enumerates(order, Stamps(run[i]))
    requires forall x: nat | CommittedWriter(run[i], x, k) :: run[i].txns[x].wset[k].stage.Unlocked?
    ensures var rec := run[i].recs[k];
            var st := S.Replay(run[i].init, S.Arrange(CommittedTxns(run[i]), order));
            0 <= MaxSlot(rec.wts) < |rec.data| && k in st && st[k] == rec.data[MaxSlot(rec.wts)]
  {
    var s := run[i];
    RunInv(run, i);
    assert KeyInv(s, k);
    var rec := s.recs[k];
    var txns, stamp := CommittedTxns(s), Stamps(s);
    assert Retained(s, INIT_WTS, k);
    var pos := MaxSlot(rec.wts);
    var w := rec.wts[pos];
    assert SlotOk(s, k, pos);
    forall x: nat | CommittedWriter(s, x, k) ensures x <= w {
      assert Retained(s, x, k);
    }
    assert forall x | x in txns :: k in txns[x].installed <==> CommittedWriter(s, x, k);
    forall x | x in txns ensures INIT_WTS < x { assert TxnOk(s, x); }
    if w == INIT_WTS {
      S.FinalStoreUnwritten(s.init, txns, stamp, order, k);
    } else {
      S.FinalStore(s.init, txns, stamp, order, k, w);
    }
  }

  // ---------------------------------------------------------------------------------------------
  // Slots
  // ---------------------------------------------------------------------------------------------

  /** The four slots hold the largest timestamps ever installed on the record, each once. */
  lemma SlotsHoldLargest(run: seq<State>, i: nat, k: Key)
    requires Run(run) && i < |run| && k in run[i].recs
    ensures var wts := run[i].recs[k].wts;
            && |wts| == VERSION_NUM
            && (forall a, b | 0 <= a < b < VERSION_NUM :: wts[a] != 0 ==> wts[a] != wts[b])
            && (forall a | 0 <= a < VERSION_NUM :: wts[a] == 0 || Installed(run[i], wts[a], k))
            && (forall w, a | Installed(run[i], w, k) && w !in wts && 0 <= a < VERSION_NUM :: w < wts[a])
  {
    var s := run[i];
    RunInv(run, i);
    assert KeyInv(s, k);
    forall a | 0 <= a < VERSION_NUM ensures s.recs[k].wts[a] == 0 || Installed(s, s.recs[k].wts[a], k) {
      assert SlotOk(s, k, a);
    }
    forall w, a | Installed(s, w, k) && w !in s.recs[k].wts && 0 <= a < VERSION_NUM ensures w < s.recs[k].wts[a] {
      assert Retained(s, w, k);
    }
  }

  /** The slot chosen when the lock was taken is still the oldest when the new version goes in, and
      the handlers' assertion that the lock word is the installer's timestamp holds. */
  lemma InstallOverwritesOldest(run: seq<State>, i: nat, t: nat, k: Key)
    requires Run(run) && i + 1 < |run| && StoreWts(run[i], run[i + 1], t, k)
    ensures run[i].recs[k].lock == t
    ensures var wts := run[i].recs[k].wts;
            var pos := run[i].txns[t].wset[k].pos;
            pos < |wts| && forall a | 0 <= a < |wts| :: wts[pos] <= wts[a] < t
  {
    RunInv(run, i);
    Known(run[i], t, k);
  }

  // ---------------------------------------------------------------------------------------------
  // Timestamps
  // ---------------------------------------------------------------------------------------------

  /** A new transaction's timestamp was never used before and exceeds its coroutine's earlier ones. */
  lemma TimestampsAreFresh(run: seq<State>, i: nat, c: Cor, t: nat)
    requires Run(run) && i + 1 < |run| && Begin(run[i], run[i + 1], c, t)
    ensures t !in run[i].txns
    ensures forall x | x in run[i].txns && run[i].txns[x].cor == c :: x < t
  {
    RunInv(run, i);
    FreshTimestamp(run[i], c);
  }

  lemma ClockStep(s: State, s': State, c: Cor)
    requires Inv(s) && Next(s, s') && c in s.clock
    ensures c in s'.clock && s.clock[c] <= s'.clock[c]
  {
    var step :| NextBy(s, s', step);
    if step.LockRefuseStep? || step.AbortBlockedStep? { assert TxnOk(s, step.t); }
  }

  lemma {:induction false} ClockAdvances(run: seq<State>, i: nat, j: nat, c: Cor)
    requires Run(run) && i <= j < |run| && c in run[i].clock
    ensures c in run[j].clock && run[i].clock[c] <= run[j].clock[c]
  {
    if i < j {
      ClockAdvances(run, i, j - 1, c);
      RunInv(run, j - 1);
      assert StepAt(run, j - 1);
      ClockStep(run[j - 1], run[j], c);
    }
  }

  /** A retry after an abort that reported a blocking timestamp gets a larger one. */
  lemma RetryPassesBlocker(run: seq<State>, i: nat, j: nat, t: nat, k: Key, blocker: nat, retry: nat)
    requires Run(run) && i < j && j + 1 < |run|
    requires LockRefuse(run[i], run[i + 1], t, k, blocker) || AbortBlocked(run[i], run[i + 1], t, k, blocker)
    requires Begin(run[j], run[j + 1], run[i].txns[t].cor, retry)
    ensures blocker < retry
  {
    var c := run[i].txns[t].cor;
    RunInv(run, i);
    assert TxnOk(run[i], t);
    RunInv(run, j);
    ClockAdvances(run, i + 1, j, c);
    TimestampParts(run[j].clock[c] + 1, c);
  }
}
