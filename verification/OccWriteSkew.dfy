/** Validation that loads the sequence number and the lock separately lets write skew through.

    Two transactions each read what the other writes. The first validates, and installs its write
    after the second has compared the sequence number but before the second looks at the lock. Both
    commit, and no serial order gives both of them what they read. */
module OccWriteSkew {
  import opened Occ
  import opened OccSafety
  import opened OccTheorems
  import S = Serializability

  ghost predicate Reach(s: State) {
    exists run :: Run(run) && run[|run| - 1] == s
  }

  lemma ReachInit(s: State)
    requires Init(s)
    ensures Reach(s)
  {
    assert Run([s]);
  }

  lemma Do(s: State, s': State, step: Step)
    requires Reach(s) && NextBy(s, s', step)
    ensures Reach(s')
  {
    var run :| Run(run) && run[|run| - 1] == s;
    var longer := run + [s'];
    forall i | 0 <= i < |longer| - 1 ensures StepAt(longer, i) {
      assert i < |run| - 1 ==> StepAt(run, i);
    }
    assert Run(longer);
  }

  lemma PutTwice(s: State, id: nat, a: Txn, b: Txn)
    ensures PutTxn(PutTxn(s, id, a), id, b) == PutTxn(s, id, b)
  {
    assert s.txns[id := a][id := b] == s.txns[id := b];
  }

  /** An executing transaction reads a one-word record that nobody is writing. */
  lemma Read(s: State, id: nat, k: Key, forWrite: bool) returns (s': State)
    requires Reach(s) && In(s, id, Executing) && s.txns[id].op == NoOp && k !in s.txns[id].wset
    requires k in s.recs && |s.recs[k].words| == 1 && s.recs[k].seqno == 0
    ensures Reach(s')
    ensures var t := s.txns[id];
            var w := s.recs[k].words;
            s' == PutTxn(s, id, if forWrite then t.(wset := t.wset[k := WriteItem(0, w, w, Free)])
                                else t.(rset := t.rset + [ReadItem(k, 0, w, Unchecked)]))
  {
    var t, w := s.txns[id], s.recs[k].words;
    var t1 := t.(op := Copying(k, forWrite, 0, []));
    var t2 := t.(op := Copying(k, forWrite, 0, w));
    var t3 := if forWrite then t.(wset := t.wset[k := WriteItem(0, w, w, Free)])
              else t.(rset := t.rset + [ReadItem(k, 0, w, Unchecked)]);
    Do(s, PutTxn(s, id, t1), GetLoadStep(id, k, forWrite));
    PutTwice(s, id, t1, t2);
    assert [] + [w[0]] == w;
    Do(PutTxn(s, id, t1), PutTxn(s, id, t2), GetWordStep(id, k));
    PutTwice(s, id, t2, t3);
    s' := PutTxn(s, id, t3);
    Do(PutTxn(s, id, t2), s', GetCheckStep(id, k));
  }

  function Item(v: int, stage: Stage): WriteItem { WriteItem(0, [5], [v], stage) }

  /** A transaction that has read r and is going to write w. */
  function Party(id: nat, r: Key, w: Key): Txn {
    Txn(id, Executing, NoOp, [ReadItem(r, 0, [5], Unchecked)], map[w := Item(5, Free)], 0, {})
  }

  lemma Opens(s: State, id: nat, r: Key, w: Key) returns (s': State)
    requires Reach(s) && id != 0 && id !in s.txns && id !in s.cur && r in s.recs && w in s.recs
    requires s.recs[r] == s.recs[w] == Record(0, 0, [5], [], map[])
    ensures Reach(s') && s' == s.(txns := s.txns[id := Party(id, r, w)], cur := s.cur[id := id])
  {
    var s0 := s.(cur := s.cur[id := id]);
    var t0 := Txn(id, Executing, NoOp, [], map[], 0, {});
    var s1 := PutTxn(s0, id, t0);
    Do(s, s1, BeginStep(id, id));
    var s2 := Read(s1, id, r, false);
    var t2 := s2.txns[id];
    PutTwice(s0, id, t0, t2);
    s' := Read(s2, id, w, true);
    PutTwice(s0, id, t2, s'.txns[id]);
    assert [] + [ReadItem(r, 0, [5], Unchecked)] == [ReadItem(r, 0, [5], Unchecked)];
    assert map[][w := Item(5, Free)] == map[w := Item(5, Free)];
  }

  /** ... and that, having sealed the value v, is to be found in the given phase. */
  function Sealed(id: nat, r: Key, w: Key, v: int, check: Check, phase: Phase, stage: Stage, point: nat): Txn {
    Txn(id, phase, NoOp, [ReadItem(r, 0, [5], check)], map[w := Item(v, stage)], point, {})
  }

  lemma Seals(s: State, id: nat, r: Key, w: Key, v: int) returns (s': State)
    requires Reach(s) && id in s.txns && s.txns[id] == Party(id, r, w)
    ensures Reach(s') && s' == PutTxn(s, id, Sealed(id, r, w, v, Unchecked, Locking, Free, 0))
  {
    s' := PutTxn(s, id, Sealed(id, r, w, v, Unchecked, Locking, Free, 0));
    assert Seal(s.txns[id].wset, map[w := [v]]) == s'.txns[id].wset;
    Do(s, s', StartCommitStep(id, map[w := [v]]));
  }

  lemma Swaps(s: State, id: nat, r: Key, w: Key, v: int) returns (s': State)
    requires Reach(s) && id in s.txns && s.txns[id] == Sealed(id, r, w, v, Unchecked, Locking, Free, 0)
    requires w in s.recs && s.recs[w].lock == 0 == s.recs[w].seqno
    ensures Reach(s')
    ensures s' == PutBoth(s, id, Sealed(id, r, w, v, Unchecked, Locking, Verified, 0), w, s.recs[w].(lock := id))
  {
    var s0 := s.(recs := s.recs[w := s.recs[w].(lock := id)]);
    var t2 := SetStage(s.txns[id], w, Swapped);
    var t3 := SetStage(t2, w, Verified);
    Do(s, PutTxn(s0, id, t2), TryLockStep(id, w));
    PutTwice(s0, id, t2, t3);
    s' := PutTxn(s0, id, t3);
    Do(PutTxn(s0, id, t2), s', LockVerifyStep(id, w));
    assert t3 == Sealed(id, r, w, v, Unchecked, Locking, Verified, 0);
  }

  lemma Locks(s: State, id: nat, r: Key, w: Key, v: int) returns (s': State)
    requires Reach(s) && id in s.txns && s.txns[id] == Party(id, r, w) && w in s.recs
    requires s.recs[w] == Record(0, 0, [5], [], map[])
    ensures Reach(s')
    ensures s' == PutBoth(s, id, Sealed(id, r, w, v, Unchecked, Validating, Verified, s.clock + 1), w, s.recs[w].(lock := id)).(clock := s.clock + 1)
  {
    var s1 := Seals(s, id, r, w, v);
    var s2 := Swaps(s1, id, r, w, v);
    PutTwice(s, id, s1.txns[id], s2.txns[id]);
    s' := Points(s2, id, r, w, v);
    PutTwice(s, id, s2.txns[id], s'.txns[id]);
  }

  lemma Points(s: State, id: nat, r: Key, w: Key, v: int) returns (s': State)
    requires Reach(s) && id in s.txns && s.txns[id] == Sealed(id, r, w, v, Unchecked, Locking, Verified, 0)
    ensures Reach(s')
    ensures s' == PutTxn(s, id, Sealed(id, r, w, v, Unchecked, Validating, Verified, s.clock + 1)).(clock := s.clock + 1)
  {
    s' := PutTxn(s, id, Sealed(id, r, w, v, Unchecked, Validating, Verified, s.clock + 1)).(clock := s.clock + 1);
    Do(s, s', LockPointStep(id));
  }

  lemma ComparesSeq(s: State, id: nat, r: Key, w: Key, v: int, point: nat) returns (s': State)
    requires Reach(s) && id in s.txns && s.txns[id] == Sealed(id, r, w, v, Unchecked, Validating, Verified, point)
    requires r in s.recs && s.recs[r].seqno == 0
    ensures Reach(s') && s' == PutTxn(s, id, Sealed(id, r, w, v, SeqMatched, Validating, Verified, point))
  {
    s' := PutTxn(s, id, Sealed(id, r, w, v, SeqMatched, Validating, Verified, point));
    assert SetCheck(s.txns[id], 0, SeqMatched) == s'.txns[id];
    Do(s, s', ValidateSeqStep(id, 0));
  }

  /** The lock is free: the transaction is committed. */
  lemma FindsFree(s: State, id: nat, r: Key, w: Key, v: int, point: nat) returns (s': State)
    requires Reach(s) && id in s.txns && s.txns[id] == Sealed(id, r, w, v, SeqMatched, Validating, Verified, point)
    requires r in s.recs && s.recs[r].lock == 0
    ensures Reach(s')
    ensures s' == PutTxn(s, id, Sealed(id, r, w, v, Valid(s.recs[r].seqno == 0), Logging, Verified, point))
  {
    var clean := Valid(s.recs[r].seqno == 0);
    var t1 := Sealed(id, r, w, v, clean, Validating, Verified, point);
    assert SetCheck(s.txns[id], 0, clean) == t1;
    Do(s, PutTxn(s, id, t1), ValidateLockStep(id, 0));
    s' := PutTxn(s, id, Sealed(id, r, w, v, clean, Logging, Verified, point));
    PutTwice(s, id, t1, s'.txns[id]);
    Do(PutTxn(s, id, t1), s', DecideStep(id));
  }

  /** The record w, while its holder id is at the given stage of installing v. */
  ghost predicate At(s: State, id: nat, r: Key, w: Key, v: int, point: nat, stage: Stage, rec: Record) {
    && id in s.txns && s.txns[id] == Sealed(id, r, w, v, Valid(true), Installing, stage, point)
    && w in s.recs && s.recs[w] == rec
  }

  ghost function PutAt(s: State, id: nat, r: Key, w: Key, v: int, point: nat, stage: Stage, rec: Record): State {
    PutBoth(s, id, Sealed(id, r, w, v, Valid(true), Installing, stage, point), w, rec)
  }

  /** One memory access of inplace_write_op. */
  lemma Stores(s: State, step: Step, id: nat, r: Key, w: Key, v: int, point: nat, from: Stage, to: Stage, rec: Record)
    returns (s': State)
    requires Reach(s) && w in s.recs && At(s, id, r, w, v, point, from, s.recs[w])
    requires NextBy(s, PutBoth(s, id, SetStage(s.txns[id], w, to), w, rec), step)
    ensures Reach(s') && s' == PutAt(s, id, r, w, v, point, to, rec) && At(s', id, r, w, v, point, to, rec)
  {
    s' := PutBoth(s, id, SetStage(s.txns[id], w, to), w, rec);
    assert SetStage(s.txns[id], w, to).wset == map[w := Item(v, to)];
    Do(s, s', step);
  }

  lemma PutAtTwice(s: State, id: nat, r: Key, w: Key, v: int, point: nat, a: Stage, reca: Record, b: Stage, recb: Record)
    ensures PutAt(PutAt(s, id, r, w, v, point, a, reca), id, r, w, v, point, b, recb) == PutAt(s, id, r, w, v, point, b, recb)
  {
  }

  lemma RaisesAndCopies(s: State, id: nat, r: Key, w: Key, v: int, point: nat) returns (s': State)
    requires Reach(s) && At(s, id, r, w, v, point, Verified, Record(id, 0, [5], [], map[]))
    ensures Reach(s') && s' == PutAt(s, id, r, w, v, point, Flagged(0, 1), Record(id, 73, [v], [], map[]))
  {
    var rec1, rec2 := Record(id, 73, [5], [], map[]), Record(id, 73, [v], [], map[]);
    var s2 := Stores(s, StoreFlagStep(id, w), id, r, w, v, point, Verified, Flagged(0, 0), rec1);
    assert [5][0 := v] == [v];
    s' := Stores(s2, StoreWordStep(id, w), id, r, w, v, point, Flagged(0, 0), Flagged(0, 1), rec2);
    PutAtTwice(s, id, r, w, v, point, Flagged(0, 0), rec1, Flagged(0, 1), rec2);
  }

  lemma PublishesAndUnlocks(s: State, id: nat, r: Key, w: Key, v: int, point: nat) returns (s': State)
    requires Reach(s) && At(s, id, r, w, v, point, Flagged(0, 1), Record(id, 73, [v], [], map[]))
    ensures Reach(s') && s' == PutAt(s, id, r, w, v, point, Unlocked, Record(0, 2, [v], [id], map[]))
  {
    var rec1, rec2 := Record(id, 2, [v], [id], map[]), Record(0, 2, [v], [id], map[]);
    assert [] + [id] == [id];
    var s2 := Stores(s, StoreSeqStep(id, w), id, r, w, v, point, Flagged(0, 1), Stored, rec1);
    s' := Stores(s2, StoreUnlockStep(id, w), id, r, w, v, point, Stored, Unlocked, rec2);
    PutAtTwice(s, id, r, w, v, point, Stored, rec1, Unlocked, rec2);
  }

  lemma Installs(s: State, id: nat, r: Key, w: Key, v: int, point: nat) returns (s': State)
    requires Reach(s) && id in s.txns && s.txns[id] == Sealed(id, r, w, v, Valid(true), Logging, Verified, point)
    requires w in s.recs && s.recs[w] == Record(id, 0, [5], [], map[])
    ensures Reach(s')
    ensures s' == PutAt(s, id, r, w, v, point, Unlocked, Record(0, 2, [v], [id], map[]))
  {
    var t1 := Sealed(id, r, w, v, Valid(true), Installing, Verified, point);
    var s1 := PutTxn(s, id, t1);
    Do(s, s1, LogDoneStep(id));
    var s2 := RaisesAndCopies(s1, id, r, w, v, point);
    s' := PublishesAndUnlocks(s2, id, r, w, v, point);
    PutAtTwice(s1, id, r, w, v, point, Flagged(0, 1), s2.recs[w], Unlocked, s'.recs[w]);
    assert s' == PutAt(PutTxn(s, id, t1), id, r, w, v, point, Unlocked, s'.recs[w]);
    assert s.txns[id := t1][id := s'.txns[id]] == s.txns[id := s'.txns[id]];
  }

  ghost predicate Skewed(s: State) {
    && s.init == map[0 := [5], 1 := [5]] && s.txns.Keys == {1, 2}
    && s.txns[1] == Sealed(1, 0, 1, 6, Valid(true), Installing, Unlocked, 1)
    && s.txns[2] == Sealed(2, 1, 0, 7, Valid(false), Logging, Verified, 2)
  }

  lemma SkewIsReachable() returns (s: State)
    ensures Reach(s) && Skewed(s)
  {
    var rec := Record(0, 0, [5], [], map[]);
    var s0 := State(map[0 := [5], 1 := [5]], map[0 := rec, 1 := rec], map[], map[], 0);
    ReachInit(s0);
    var s1 := Opens(s0, 1, 0, 1);
    var s2 := Opens(s1, 2, 1, 0);
    var s3 := Locks(s2, 1, 0, 1, 6);
    s := SkewFrom(s3);
  }

  lemma SkewFrom(s3: State) returns (s: State)
    requires Reach(s3) && s3.init == map[0 := [5], 1 := [5]] && s3.clock == 1 && s3.txns.Keys == {1, 2}
    requires s3.txns[1] == Sealed(1, 0, 1, 6, Unchecked, Validating, Verified, 1) && s3.txns[2] == Party(2, 1, 0)
    requires s3.recs == map[0 := Record(0, 0, [5], [], map[]), 1 := Record(1, 0, [5], [], map[])]
    ensures Reach(s) && Skewed(s)
  {
    var s4 := ComparesSeq(s3, 1, 0, 1, 6, 1);
    var s5 := FindsFree(s4, 1, 0, 1, 6, 1);
    var s6 := Locks(s5, 2, 1, 0, 7);
    var s7 := ComparesSeq(s6, 2, 1, 0, 7, 2);
    var s8 := Installs(s7, 1, 0, 1, 6, 1);
    s := FindsFree(s8, 2, 1, 0, 7, 2);
  }

  lemma CommittedTxn(s: State, id: nat, r: Key, w: Key, v: int, check: Check, phase: Phase, stage: Stage, point: nat)
    requires id in s.txns && s.txns[id] == Sealed(id, r, w, v, check, phase, stage, point) && Committed(s.txns[id])
    ensures var txns := CommittedTxns(s);
            id in txns && txns[id].installed == map[w := [v]] && (r, [5]) in txns[id].observed
  {
    assert s.txns[id].rset[0].k == r;
  }

  /** A reachable state whose committed transactions fit no serial order at all. */
  lemma WriteSkew() returns (s: State)
    ensures Reach(s) && CommittedTxns(s).Keys == {1, 2}
    ensures forall order: seq<nat> | 1 in order && 2 in order && (forall i | 0 <= i < |order| :: order[i] in CommittedTxns(s)) ::
              !S.Serial(s.init, S.Arrange(CommittedTxns(s), order))
  {
    s := SkewIsReachable();
    CommittedTxn(s, 1, 0, 1, 6, Valid(true), Installing, Unlocked, 1);
    CommittedTxn(s, 2, 1, 0, 7, Valid(false), Logging, Verified, 2);
    assert CommittedTxns(s).Keys == {1, 2};
    forall order: seq<nat> | 1 in order && 2 in order && (forall i | 0 <= i < |order| :: order[i] in CommittedTxns(s))
      ensures !S.Serial(s.init, S.Arrange(CommittedTxns(s), order))
    {
      NoSerialOrder(s.init, CommittedTxns(s), order);
    }
  }

  lemma NoSerialOrder(init: S.Store, txns: S.Committed, order: seq<nat>)
    requires txns.Keys == {1, 2} && txns[1].installed == map[1 := [6]] && txns[2].installed == map[0 := [7]]
    requires (0, [5]) in txns[1].observed && (1, [5]) in txns[2].observed
    requires 1 in order && 2 in order && forall i | 0 <= i < |order| :: order[i] in txns
    ensures !S.Serial(init, S.Arrange(txns, order))
  {
    var i :| 0 <= i < |order| && order[i] == 1;
    var j :| 0 <= j < |order| && order[j] == 2;
    var h := S.Arrange(txns, order);
    if i < j { S.OverwrittenIsGone(init, h, i, j, 1, [5]); } else { S.OverwrittenIsGone(init, h, j, i, 0, [5]); }
  }
}
