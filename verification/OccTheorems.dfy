/** The promises of the optimistic protocol, over whole runs. */
module OccTheorems {
  import opened Occ
  import opened OccSafety
  import S = Serializability

  // ---------------------------------------------------------------------------------------------
  // Serializability
  // ---------------------------------------------------------------------------------------------

  ghost function Observed(t: Txn): set<(Key, Value)> {
    (set i | 0 <= i < |t.rset| :: (t.rset[i].k, t.rset[i].val)) + (set k | k in t.wset :: (k, t.wset[k].base))
  }

  ghost function CommittedTxns(s: State): S.Committed {
    map id | id in s.txns && Committed(s.txns[id]) :: S.Txn(Observed(s.txns[id]), map k | k in s.txns[id].wset :: s.txns[id].wset[k].val)
  }

  /** The serial order is the order of lock points. */
  ghost function Stamps(s: State): map<nat, S.Stamp> {
    map id | id in s.txns && Committed(s.txns[id]) :: S.Stamp(s.txns[id].lockPoint, 0)
  }

  predicate CommittedWriter(s: State, x: nat, k: Key) {
    Writes(s, x, k) && Committed(s.txns[x])
  }

  /** A committed writer has installed its version, or still holds the record. */
  lemma WriterIsKnown(s: State, x: nat, k: Key)
    requires Inv(s) && CommittedWriter(s, x, k) && k in s.recs
    ensures (HasHolder(s, k) && Holder(s, k) == x) || (exists j :: 0 <= j < |s.recs[k].hist| && s.recs[k].hist[j] == x)
  {
    Known(s, x, k);
    if Holds(s.txns[x], k) {
      IsHolder(s, x, k);
    } else {
      assert s.recs[k].hist[s.txns[x].wset[k].seqno / 2] == x;
    }
  }

  /** If versions up to m lie before id's lock point and all others after it, version m is what id
      must read. */
  lemma VersionIsValueAt(s: State, id: nat, k: Key, m: nat)
    requires Inv(s) && id in s.txns && Committed(s.txns[id]) && k in s.recs && m <= |s.recs[k].hist|
    requires LockedBefore(s, k, m, Point(s, id))
    requires forall j | m <= j < |s.recs[k].hist| :: Point(s, id) <= Point(s, s.recs[k].hist[j])
    requires HasHolder(s, k) && CommittedWriter(s, Holder(s, k), k) ==>
               Point(s, id) <= HolderPoint(s, k) || exists j :: 0 <= j < m && s.recs[k].hist[j] == Holder(s, k)
    ensures S.ValueAt(s.init, CommittedTxns(s), Stamps(s), id, k, Ver(s, k, m))
  {
    var txns, stamp := CommittedTxns(s), Stamps(s);
    var hist := s.recs[k].hist;
    assert KeyInv(s, k) && RecOk(s, k);
    assert forall x | x in txns :: k in txns[x].installed <==> CommittedWriter(s, x, k);
    forall x | x in txns && k in txns[x].installed && S.Before(stamp[x], stamp[id])
      ensures exists j :: 0 <= j < m && hist[j] == x
    {
      WriterIsKnown(s, x, k);
    }
    if m == 0 {
      assert S.NoneBefore(txns, stamp, id, k);
    } else {
      var w := hist[m - 1];
      assert HistOk(s, k, m - 1);
      forall x | x in txns && k in txns[x].installed && S.Before(stamp[x], stamp[id])
        ensures x == w || S.Before(stamp[x], stamp[w])
      {
        var j :| 0 <= j < m && hist[j] == x;
        assert HistOk(s, k, j);
      }
      assert S.LatestBefore(txns, stamp, id, k, w);
    }
  }

  /** Writer x of the i-th record read has its lock point before id's, but the read did not see it. */
  ghost predicate Missed(s: State, id: nat, i: nat, x: nat)
    requires id in s.txns && i < |s.txns[id].rset| && s.txns[id].rset[i].k in s.recs
  {
    var item := s.txns[id].rset[i];
    && CommittedWriter(s, x, item.k) && Point(s, x) < Point(s, id)
    && forall j | 0 <= j < item.seqno / 2 && j < |s.recs[item.k].hist| :: s.recs[item.k].hist[j] != x
  }

  ghost predicate LastMissed(s: State, id: nat, i: nat, x: nat)
    requires id in s.txns && i < |s.txns[id].rset| && s.txns[id].rset[i].k in s.recs
  {
    Missed(s, id, i, x) && forall y: nat | Missed(s, id, i, y) :: y == x || Point(s, y) < Point(s, x)
  }

  /** Nobody's write was missed, or the last one that was stored just the bytes that were read. */
  ghost predicate Right(s: State, id: nat, i: nat)
    requires id in s.txns && i < |s.txns[id].rset| && s.txns[id].rset[i].k in s.recs
  {
    || (forall x: nat :: !Missed(s, id, i, x))
    || (exists x: nat :: LastMissed(s, id, i, x) && s.txns[x].wset[s.txns[id].rset[i].k].val == s.txns[id].rset[i].val)
  }

  predicate CommittedRead(s: State, id: nat, i: nat) {
    id in s.txns && Committed(s.txns[id]) && i < |s.txns[id].rset| && s.txns[id].rset[i].k in s.recs
  }

  ghost predicate AllRight(s: State) {
    forall id: nat, i: nat | CommittedRead(s, id, i) :: Right(s, id, i)
  }

  /** Every committed read had an unchanged sequence number when its record was found unlocked. With
      one load of both words, as the one-sided validation does, this is always so. */
  ghost predicate AllClean(s: State) {
    forall id, i | id in s.txns && Committed(s.txns[id]) && 0 <= i < |s.txns[id].rset| :: s.txns[id].rset[i].check == Valid(true)
  }

  lemma UnmissedIfClean(s: State, id: nat, i: nat, x: nat)
    requires Inv(s) && CommittedRead(s, id, i) && s.txns[id].rset[i].check == Valid(true)
    ensures !Missed(s, id, i, x)
  {
    var k := s.txns[id].rset[i].k;
    Known(s, id, k);
    assert ReadOk(s, id, i);
    if x in s.txns { assert TxnOk(s, x); }
    if Missed(s, id, i, x) {
      WriterIsKnown(s, x, k);
    }
  }

  /** The version read comes before id, and before everybody who was missed. */
  lemma ReadVersion(s: State, id: nat, i: nat)
    requires Inv(s) && CommittedRead(s, id, i)
    ensures var item := s.txns[id].rset[i];
            var m := item.seqno / 2;
            && item.k !in s.txns[id].wset && m <= |s.recs[item.k].hist| && item.val == Ver(s, item.k, m)
            && LockedBefore(s, item.k, m, Point(s, id))
            && forall x: nat | Missed(s, id, i, x) :: LockedBefore(s, item.k, m, Point(s, x))
  {
    var item := s.txns[id].rset[i];
    var k, m := item.k, item.seqno / 2;
    Known(s, id, k);
    assert TxnOk(s, id) && ReadOk(s, id, i);
    var hist := s.recs[k].hist;
    forall x: nat | Missed(s, id, i, x) ensures LockedBefore(s, k, m, Point(s, x)) {
      WriterIsKnown(s, x, k);
      forall j | 0 <= j < m ensures Point(s, hist[j]) < Point(s, x) {
        assert HistOk(s, k, j);
        if HasHolder(s, k) && Holder(s, k) == x { HolderIsLater(s, hist[j], k, j); PointsApart(s, hist[j], x, k, j); }
      }
    }
  }

  lemma PointsApart(s: State, a: nat, x: nat, k: Key, j: nat)
    requires Inv(s) && k in s.recs && j < |s.recs[k].hist| && s.recs[k].hist[j] == a && a != x
    ensures Point(s, a) != Point(s, x)
  {
    assert KeyInv(s, k) && HistOk(s, k, j) && PointsDiffer(s, a, x);
  }

  lemma UnmissedIsValueAt(s: State, id: nat, i: nat)
    requires Inv(s) && CommittedRead(s, id, i) && forall x: nat :: !Missed(s, id, i, x)
    ensures S.ValueAt(s.init, CommittedTxns(s), Stamps(s), id, s.txns[id].rset[i].k, s.txns[id].rset[i].val)
  {
    ReadVersion(s, id, i);
    var k, m := s.txns[id].rset[i].k, s.txns[id].rset[i].seqno / 2;
    var hist := s.recs[k].hist;
    assert KeyInv(s, k) && RecOk(s, k);
    forall j | m <= j < |hist| ensures Point(s, id) <= Point(s, hist[j]) {
      assert HistOk(s, k, j);
      forall l | 0 <= l < m ensures hist[l] != hist[j] { assert HistOk(s, k, l); }
      assert !Missed(s, id, i, hist[j]);
    }
    if HasHolder(s, k) && CommittedWriter(s, Holder(s, k), k) {
      var h := Holder(s, k);
      Known(s, h, k);
      IsHolder(s, h, k);
      assert !Missed(s, id, i, h);
    }
    VersionIsValueAt(s, id, k, m);
  }

  /** The last write that was missed is the one to read. */
  lemma MissedIsLatest(s: State, id: nat, i: nat, x: nat)
    requires Inv(s) && CommittedRead(s, id, i) && LastMissed(s, id, i, x)
    ensures S.LatestBefore(CommittedTxns(s), Stamps(s), id, s.txns[id].rset[i].k, x)
  {
    ReadVersion(s, id, i);
    var k, m := s.txns[id].rset[i].k, s.txns[id].rset[i].seqno / 2;
    var txns, stamp := CommittedTxns(s), Stamps(s);
    forall y | y in txns && k in txns[y].installed && S.Before(stamp[y], stamp[id]) ensures y == x || S.Before(stamp[y], stamp[x]) {
      assert CommittedWriter(s, y, k);
      if !Missed(s, id, i, y) {
        var j :| 0 <= j < m && j < |s.recs[k].hist| && s.recs[k].hist[j] == y;
      }
    }
  }

  lemma LatestIsMissed(s: State, id: nat, i: nat, x: nat, y: nat)
    requires Inv(s) && CommittedRead(s, id, i) && Missed(s, id, i, y)
    requires S.LatestBefore(CommittedTxns(s), Stamps(s), id, s.txns[id].rset[i].k, x)
    ensures LastMissed(s, id, i, x)
  {
    ReadVersion(s, id, i);
    var k, m := s.txns[id].rset[i].k, s.txns[id].rset[i].seqno / 2;
    var txns, stamp := CommittedTxns(s), Stamps(s);
    assert CommittedWriter(s, x, k);
    forall z: nat | Missed(s, id, i, z) ensures z == x || Point(s, z) < Point(s, x) {
      assert z in txns && k in txns[z].installed && S.Before(stamp[z], stamp[id]);
    }
    assert LockedBefore(s, k, m, Point(s, y));
  }

  /** So a read is as in the serial order exactly if it is right. */
  lemma RightIsValueAt(s: State, id: nat, i: nat)
    requires Inv(s) && CommittedRead(s, id, i)
    ensures Right(s, id, i) <==> S.ValueAt(s.init, CommittedTxns(s), Stamps(s), id, s.txns[id].rset[i].k, s.txns[id].rset[i].val)
  {
    var k, v := s.txns[id].rset[i].k, s.txns[id].rset[i].val;
    var txns, stamp := CommittedTxns(s), Stamps(s);
    if forall x: nat :: !Missed(s, id, i, x) {
      UnmissedIsValueAt(s, id, i);
    } else {
      var y: nat :| Missed(s, id, i, y);
      assert y in txns && k in txns[y].installed && S.Before(stamp[y], stamp[id]);
      if x: nat :| LastMissed(s, id, i, x) && s.txns[x].wset[k].val == v { MissedIsLatest(s, id, i, x); }
      if x: nat :| S.LatestBefore(txns, stamp, id, k, x) && txns[x].installed[k] == v { LatestIsMissed(s, id, i, x, y); }
    }
  }

  lemma CommittedReadsLatest(s: State)
    requires Inv(s)
    ensures S.ReadsLatest(s.init, CommittedTxns(s), Stamps(s)) <==> AllRight(s)
  {
    var txns, stamp := CommittedTxns(s), Stamps(s);
    if AllRight(s) {
      forall id, k: Key, v: Value | id in txns && (k, v) in txns[id].observed
        ensures S.ValueAt(s.init, txns, stamp, id, k, v)
      {
        var t := s.txns[id];
        assert TxnOk(s, id);
        if i :| 0 <= i < |t.rset| && t.rset[i].k == k && t.rset[i].val == v {
          assert CommittedRead(s, id, i);
          RightIsValueAt(s, id, i);
        } else {
          LockedReadIsLatest(s, id, k);
        }
      }
    }
    if S.ReadsLatest(s.init, txns, stamp) {
      forall id: nat, i: nat | CommittedRead(s, id, i) ensures Right(s, id, i) {
        RightIsValueAt(s, id, i);
        assert (s.txns[id].rset[i].k, s.txns[id].rset[i].val) in txns[id].observed;
      }
    }
  }

  /** The value a committed writer based its write on is the latest before its lock point. */
  lemma LockedReadIsLatest(s: State, id: nat, k: Key)
    requires Inv(s) && CommittedWriter(s, id, k) && k in s.recs
    ensures S.ValueAt(s.init, CommittedTxns(s), Stamps(s), id, k, s.txns[id].wset[k].base)
  {
    Known(s, id, k);
    var m := s.txns[id].wset[k].seqno / 2;
    var hist := s.recs[k].hist;
    if Holds(s.txns[id], k) { IsHolder(s, id, k); }
    if m < |hist| {
      assert HistOk(s, k, m);
      forall j | 0 <= j < m ensures Point(s, hist[j]) < Point(s, id) { assert HistOk(s, k, j); }
      if HasHolder(s, k) && CommittedWriter(s, Holder(s, k), k) { HolderIsLater(s, id, k, m); }
    }
    VersionIsValueAt(s, id, k, m);
  }

  /** A committed transaction that holds k locked it after everything installed on k. */
  lemma HolderIsLater(s: State, id: nat, k: Key, m: nat)
    requires Inv(s) && k in s.recs && m < |s.recs[k].hist| && s.recs[k].hist[m] == id
    requires HasHolder(s, k) && CommittedWriter(s, Holder(s, k), k)
    ensures Point(s, id) <= HolderPoint(s, k)
  {
    var h := Holder(s, k);
    Known(s, h, k);
    IsHolder(s, h, k);
    assert HistOk(s, k, m);
  }

  lemma StampsInjective(s: State)
    requires Inv(s)
    ensures S.Injective(Stamps(s))
  {
    forall a, b | a in Stamps(s) && b in Stamps(s) && a != b ensures Stamps(s)[a] != Stamps(s)[b] {
      assert PointsDiffer(s, a, b) && TxnOk(s, a);
    }
  }

  /** In every run, at every step, replaying the committed transactions in the order in which they
      finished locking gives each of them exactly the values it read, if and only if no read missed a
      write that was locked before, or the last such write stored the same bytes. */
  lemma SerializableExactlyWhen(run: seq<State>, i: nat, order: seq<nat>)
    requires Run(run) && i < |run| && S.Enumerates(order, Stamps(run[i]))
    ensures S.Serial(run[i].init, S.Arrange(CommittedTxns(run[i]), order)) <==> AllRight(run[i])
  {
    RunInv(run, i);
    CommittedReadsLatest(run[i]);
    S.SerializableInStampOrder(run[i].init, CommittedTxns(run[i]), Stamps(run[i]), order);
  }

  /** A clean validation has missed nobody, however many have committed since. */
  lemma CleanMissesNobody(run: seq<State>, i: nat, id: nat, r: nat, x: nat)
    requires Run(run) && i < |run| && CommittedRead(run[i], id, r) && run[i].txns[id].rset[r].check == Valid(true)
    ensures !Missed(run[i], id, r, x)
  {
    RunInv(run, i);
    UnmissedIfClean(run[i], id, r, x);
  }

  /** So it does whenever every validation found both words unchanged at once. */
  lemma Serializable(run: seq<State>, i: nat, order: seq<nat>)
    requires Run(run) && i < |run| && AllClean(run[i])
    requires S.Enumerates(order, Stamps(run[i]))
    ensures S.Serial(run[i].init, S.Arrange(CommittedTxns(run[i]), order))
  {
    var s := run[i];
    RunInv(run, i);
    forall id: nat, r: nat | CommittedRead(s, id, r) ensures Right(s, id, r) {
      forall x: nat ensures !Missed(s, id, r, x) { UnmissedIfClean(s, id, r, x); }
    }
    SerializableExactlyWhen(run, i, order);
  }

  // ---------------------------------------------------------------------------------------------
  // Validation by one READ
  // ---------------------------------------------------------------------------------------------

  ghost predicate ChecksLockAt(run: seq<State>, i: nat, id: nat, r: nat)
    requires i + 1 < |run|
  {
    ValidateLock(run[i], run[i + 1], id, r)
  }

  ghost predicate InOneGo(run: seq<State>, i: nat, id: nat, r: nat)
    requires i < |run|
  {
    1 <= i && ValidateSeq(run[i - 1], run[i], id, r)
  }

  /** Every validation loads the lock right after the sequence number. */
  ghost predicate AtomicValidation(run: seq<State>) {
    forall i: nat, id, r | i + 1 < |run| && ChecksLockAt(run, i, id, r) :: InOneGo(run, i, id, r)
  }

  ghost predicate ValidIsClean(t: Txn) {
    forall r | 0 <= r < |t.rset| && t.rset[r].check.Valid? :: t.rset[r].check.clean
  }

  lemma OthersKeepClean(s: State, s': State, step: Step, id: nat)
    requires NextBy(s, s', step) && !step.ValidateLockStep? && id in s'.txns && (id in s.txns ==> ValidIsClean(s.txns[id]))
    ensures ValidIsClean(s'.txns[id])
  {
  }

  lemma ValidateKeepsClean(s0: State, s: State, s': State, id: nat, r: nat, x: nat)
    requires ValidateSeq(s0, s, id, r) && ValidateLock(s, s', id, r) && x in s'.txns && ValidIsClean(s.txns[x])
    ensures ValidIsClean(s'.txns[x])
  {
  }

  lemma {:induction false} AtomicIsClean(run: seq<State>, i: nat, id: nat)
    requires Run(run) && AtomicValidation(run) && i < |run| && id in run[i].txns
    ensures ValidIsClean(run[i].txns[id])
  {
    if i > 0 {
      assert StepAt(run, i - 1);
      var step :| NextBy(run[i - 1], run[i], step);
      if id in run[i - 1].txns { AtomicIsClean(run, i - 1, id); }
      if step.ValidateLockStep? {
        assert ChecksLockAt(run, i - 1, step.id, step.i) && InOneGo(run, i - 1, step.id, step.i);
        ValidateKeepsClean(run[i - 2], run[i - 1], run[i], step.id, step.i, id);
      } else {
        OthersKeepClean(run[i - 1], run[i], step, id);
      }
    }
  }

  /** If every validation is one READ of both words, every run is serializable. */
  lemma SerializableIfAtomic(run: seq<State>, i: nat, order: seq<nat>)
    requires Run(run) && AtomicValidation(run) && i < |run|
    requires S.Enumerates(order, Stamps(run[i]))
    ensures S.Serial(run[i].init, S.Arrange(CommittedTxns(run[i]), order))
  {
    var s := run[i];
    RunInv(run, i);
    forall id, r | id in s.txns && Committed(s.txns[id]) && 0 <= r < |s.txns[id].rset|
      ensures s.txns[id].rset[r].check == Valid(true)
    {
      AtomicIsClean(run, i, id);
      assert TxnOk(s, id);
    }
    Serializable(run, i, order);
  }

  /** Lock points are distinct, so there is exactly such an order. */
  lemma LockOrderExists(run: seq<State>, i: nat) returns (order: seq<nat>)
    requires Run(run) && i < |run|
    ensures S.Enumerates(order, Stamps(run[i]))
  {
    RunInv(run, i);
    StampsInjective(run[i]);
    order := S.EnumerationExists(Stamps(run[i]));
  }

  /** The last installer of k is the last committed writer of k, when no committed writer holds k. */
  lemma LastInstallerIsLastWriter(s: State, k: Key, x: nat)
    requires Inv(s) && k in s.recs && CommittedWriter(s, x, k)
    requires HasHolder(s, k) ==> !CommittedWriter(s, Holder(s, k), k)
    ensures var hist := s.recs[k].hist;
            hist != [] && (x == hist[|hist| - 1] || Point(s, x) < Point(s, hist[|hist| - 1]))
  {
    WriterIsKnown(s, x, k);
    var hist := s.recs[k].hist;
    assert KeyInv(s, k) && RecOk(s, k);
    var j :| 0 <= j < |hist| && hist[j] == x;
    assert HistOk(s, k, j);
  }

  /** A record that no committed transaction holds contains what the serial replay leaves in it. */
  lemma StoreIsReplay(run: seq<State>, i: nat, order: seq<nat>, k: Key)
    requires Run(run) && i < |run| && k in run[i].recs && S.Enumerates(order, Stamps(run[i]))
    requires HasHolder(run[i], k) ==> !CommittedWriter(run[i], Holder(run[i], k), k)
    ensures var st := S.Replay(run[i].init, S.Arrange(CommittedTxns(run[i]), order));
            k in st && st[k] == run[i].recs[k].words
  {
    RunInv(run, i);
    FinalValue(run[i], order, k);
    WordsWhenUnheld(run[i], k);
  }

  lemma WordsWhenUnheld(s: State, k: Key)
    requires Inv(s) && k in s.recs && (HasHolder(s, k) ==> !CommittedWriter(s, Holder(s, k), k))
    ensures s.recs[k].words == Ver(s, k, |s.recs[k].hist|)
  {
    assert KeyInv(s, k) && RecOk(s, k);
    if HasHolder(s, k) { Known(s, Holder(s, k), k); }
  }

  lemma FinalValue(s: State, order: seq<nat>, k: Key)
    requires Inv(s) && k in s.recs && S.Enumerates(order, Stamps(s))
    requires HasHolder(s, k) ==> !CommittedWriter(s, Holder(s, k), k)
    ensures var st := S.Replay(s.init, S.Arrange(CommittedTxns(s), order));
            k in st && st[k] == Ver(s, k, |s.recs[k].hist|)
  {
    var txns, stamp, hist := CommittedTxns(s), Stamps(s), s.recs[k].hist;
    assert KeyInv(s, k) && RecOk(s, k);
    assert forall x | x in txns :: k in txns[x].installed <==> CommittedWriter(s, x, k);
    forall j | 0 <= j < |hist| ensures hist[j] in stamp { assert HistOk(s, k, j); }
    forall x | x in txns && k in txns[x].installed
      ensures hist != [] && (x == hist[|hist| - 1] || S.Before(stamp[x], stamp[hist[|hist| - 1]]))
    {
      LastInstallerIsLastWriter(s, k, x);
    }
    if hist == [] {
      S.FinalStoreUnwritten(s.init, txns, stamp, order, k);
    } else {
      assert HistOk(s, k, |hist| - 1);
      S.FinalStore(s.init, txns, stamp, order, k, hist[|hist| - 1]);
    }
  }

  // ---------------------------------------------------------------------------------------------
  // The sequence lock
  // ---------------------------------------------------------------------------------------------

  /** Whatever a transaction has read is a value that some transaction installed whole, under the
      sequence number it was read with. */
  lemma ReadsAreWhole(run: seq<State>, i: nat, id: nat, r: nat)
    requires Run(run) && i < |run| && id in run[i].txns && r < |run[i].txns[id].rset|
    ensures var item := run[i].txns[id].rset[r];
            && item.k in run[i].recs && item.seqno % 2 == 0 && item.seqno / 2 <= |run[i].recs[item.k].hist|
            && item.val == Ver(run[i], item.k, item.seqno / 2)
  {
    RunInv(run, i);
    assert TxnOk(run[i], id);
    var k := run[i].txns[id].rset[r].k;
    Known(run[i], id, k);
    assert ReadOk(run[i], id, r);
  }

  /** A record's sequence number is the flag exactly while its holder is overwriting the value;
      otherwise it is even and counts the installed versions, and the value is the last of them. */
  lemma SequenceNumberTells(run: seq<State>, i: nat, k: Key)
    requires Run(run) && i < |run| && k in run[i].recs
    ensures var rec := run[i].recs[k];
            && (rec.seqno == CONFLICT_WRITE_FLAG <==> Overwriting(run[i], k))
            && (rec.seqno != CONFLICT_WRITE_FLAG ==> rec.seqno == 2 * |rec.hist| && rec.words == Ver(run[i], k, |rec.hist|))
  {
    RunInv(run, i);
    assert KeyInv(run[i], k) && RecOk(run[i], k);
  }

  // ---------------------------------------------------------------------------------------------
  // Replication
  // ---------------------------------------------------------------------------------------------

  /** Every backup holds the primary's value and has applied exactly the primary's installs, in the
      same order; except that, while a transaction that is logging or installing holds the record, a
      backup it has already reached is one write ahead. */
  lemma BackupsFollowPrimary(run: seq<State>, i: nat, k: Key, b: Node)
    requires Run(run) && i < |run| && k in run[i].recs && b in run[i].recs[k].backup
    ensures var s := run[i];
            var rec := s.recs[k];
            var copy := rec.backup[b];
            || (copy.log == rec.hist && copy.val == Ver(s, k, |rec.hist|) && !Ahead(s, k, b))
            || (Ahead(s, k, b)
                && var h := Holder(s, k);
                   && (s.txns[h].phase.Logging? || s.txns[h].phase.Installing?)
                   && rec.lock == s.txns[h].cor && copy.log == rec.hist + [h] && copy.val == s.txns[h].wset[k].val)
  {
    var s := run[i];
    RunInv(run, i);
    assert KeyInv(s, k) && RecOk(s, k) && BackupOk(s, k, b);
    if Ahead(s, k, b) { Known(s, Holder(s, k), k); }
  }

  /** In particular, primary and backups agree on every unlocked record. */
  lemma UnlockedMeansReplicated(run: seq<State>, i: nat, k: Key, b: Node)
    requires Run(run) && i < |run| && k in run[i].recs && b in run[i].recs[k].backup && run[i].recs[k].lock == 0
    ensures run[i].recs[k].backup[b] == Backup(run[i].recs[k].words, run[i].recs[k].hist)
  {
    RunInv(run, i);
    assert KeyInv(run[i], k) && RecOk(run[i], k) && BackupOk(run[i], k, b);
  }

  /** A backup applies a write only for the transaction that holds the record on the primary, so no
      two writes to one key are ever applied at the same time. */
  lemma AppliesUnderLock(run: seq<State>, i: nat, id: nat, b: Node, k: Key)
    requires Run(run) && i + 1 < |run| && Apply(run[i], run[i + 1], id, b, k)
    ensures HasHolder(run[i], k) && Holder(run[i], k) == id && run[i].recs[k].backup[b].log == run[i].recs[k].hist
  {
    RunInv(run, i);
    Known(run[i], id, k);
    IsHolder(run[i], id, k);
    assert BackupOk(run[i], k, b);
  }

  /** Nothing is installed before every backup has it. */
  lemma InstalledMeansLogged(run: seq<State>, i: nat, id: nat, k: Key, b: Node)
    requires Run(run) && i + 1 < |run| && StoreFlag(run[i], run[i + 1], id, k) && b in run[i].recs[k].backup
    ensures run[i].recs[k].backup[b] == Backup(run[i].txns[id].wset[k].val, run[i].recs[k].hist + [id])
  {
    RunInv(run, i);
    Known(run[i], id, k);
    IsHolder(run[i], id, k);
    assert BackupOk(run[i], k, b);
  }

  /** The installs of each record, and so the writes of its backups, are in serial order. */
  lemma InstallsInSerialOrder(run: seq<State>, i: nat, k: Key, a: nat, b: nat)
    requires Run(run) && i < |run| && k in run[i].recs && a < b < |run[i].recs[k].hist|
    ensures var hist := run[i].recs[k].hist;
            && hist[a] in Stamps(run[i]) && hist[b] in Stamps(run[i])
            && S.Before(Stamps(run[i])[hist[a]], Stamps(run[i])[hist[b]])
  {
    RunInv(run, i);
    assert KeyInv(run[i], k) && HistOk(run[i], k, a) && HistOk(run[i], k, b);
  }
}
