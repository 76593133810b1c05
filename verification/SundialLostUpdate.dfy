/** A transaction that cannot renew a lease releases its write set twice, and the second release frees
    a lock that by then belongs to somebody else. Two writers then base their updates on one version,
    and no serial order explains both. */
module SundialLostUpdate {
  import opened Sundial
  import opened SundialSafety
  import opened SundialTheorems
  import S = Serializability

  ghost predicate Reach(s: State) {
    exists run :: Run(run) && run[|run| - 1] == s
  }

  lemma ReachInit(s: State)
    requires Init(s)
    ensures Reach(s)
  {
    assert Run([s]);
  }

  lemma Do(s: State, s': State, step: Step)
    requires Reach(s) && NextBy(s, s', step)
    ensures Reach(s')
  {
    var run :| Run(run) && run[|run| - 1] == s;
    var longer := run + [s'];
    forall i | 0 <= i < |longer| - 1 ensures StepAt(longer, i) {
      assert i < |run| - 1 ==> StepAt(run, i);
    }
    assert Run(longer);
  }

  lemma PutTwice(s: State, id: nat, a: Txn, b: Txn)
    ensures PutTxn(PutTxn(s, id, a), id, b) == PutTxn(s, id, b)
  {
    assert s.txns[id := a][id := b] == s.txns[id := b];
  }

  /** The record everybody writes, and the one that keeps a lease from being renewed. */
  const K: Key := 1
  const L: Key := 0

  function Rec(lock: nat): Record { Record(lock, 0, 0, [5], []) }

  function Fresh(id: nat): Txn { Txn(id, Executing, 0, [], map[], 0, 0) }

  lemma Begins(s: State, id: nat) returns (s': State)
    requires Reach(s) && id != 0 && id !in s.txns && id !in s.cur
    ensures Reach(s') && s' == PutTxn(s, id, Fresh(id)).(cur := s.cur[id := id])
  {
    s' := PutTxn(s, id, Fresh(id)).(cur := s.cur[id := id]);
    Do(s, s', BeginStep(id, id));
  }

  /** A transaction locks k and reads the initial version. */
  lemma LocksAndReads(s: State, id: nat, k: Key) returns (s': State)
    requires Reach(s) && In(s, id, Executing) && s.txns[id].wset == map[] && s.txns[id].commit == 0
    requires k in s.recs && s.recs[k] == Rec(0)
    ensures Reach(s')
    ensures s' == PutBoth(s, id, s.txns[id].(wset := map[k := WriteItem(0, 0, [5], [5], Held)], commit := 1), k, Rec(id))
  {
    var t := s.txns[id];
    var t1 := t.(wset := map[k := WriteItem(0, 0, [], [], Locked)]);
    var s1 := s.(recs := s.recs[k := Rec(id)]);
    Do(s, PutTxn(s1, id, t1), LockCasStep(id, k));
    s' := ReadsLocked(PutTxn(s1, id, t1), id, k);
    PutTwice(s1, id, t1, s'.txns[id]);
  }

  lemma ReadsLocked(s: State, id: nat, k: Key) returns (s': State)
    requires Reach(s) && In(s, id, Executing) && s.txns[id].wset == map[k := WriteItem(0, 0, [], [], Locked)] && s.txns[id].commit == 0
    requires k in s.recs && s.recs[k] == Rec(id)
    ensures Reach(s')
    ensures s' == PutTxn(s, id, s.txns[id].(wset := map[k := WriteItem(0, 0, [5], [5], Held)], commit := 1))
  {
    s' := PutTxn(s, id, s.txns[id].(wset := map[k := WriteItem(0, 0, [5], [5], Held)], commit := 1));
    assert s.txns[id].wset[k := WriteItem(0, 0, [5], [5], Held)] == map[k := WriteItem(0, 0, [5], [5], Held)];
    Do(s, s', LockReadStep(id, k));
  }

  /** A transaction that has read nothing else commits. */
  lemma Commits(s: State, id: nat, k: Key, v: int) returns (s': State)
    requires Reach(s) && id in s.txns && s.txns[id] == Fresh(id).(wset := map[k := WriteItem(0, 0, [5], [5], Held)], commit := 1)
    ensures Reach(s') && s'.clock == s.clock + 1
    ensures s' == PutTxn(s, id, Winner(id, k, v, s.clock + 1)).(clock := s.clock + 1)
  {
    var t1 := Txn(id, Renewing, 1, [], map[k := WriteItem(0, 0, [5], [v], Held)], 0, 0);
    assert Seal(s.txns[id].wset, map[k := [v]]) == t1.wset;
    Do(s, PutTxn(s, id, t1), PrepareStep(id, map[k := [v]]));
    s' := PutTxn(s, id, Winner(id, k, v, s.clock + 1)).(clock := s.clock + 1);
    PutTwice(s, id, t1, s'.txns[id]);
    Do(PutTxn(s, id, t1), s', DecideStep(id));
  }

  function Winner(id: nat, k: Key, v: int, point: nat): Txn {
    Txn(id, Installing, 1, [], map[k := WriteItem(0, 0, [5], [v], Held)], point, 0)
  }

  function Reader(renewal: Renewal): ReadItem { ReadItem(L, 0, 0, 0, [5], true, renewal) }

  /** The transaction whose renewal fails, in the given phase and stage. */
  function Loser(phase: Phase, renewal: Renewal, stage: Stage, rounds: nat): Txn {
    Txn(1, phase, 1, [Reader(renewal)], map[K := WriteItem(0, 0, [5], [5], stage)], 0, rounds)
  }

  lemma LoserReads(s: State) returns (s': State)
    requires Reach(s) && 1 in s.txns && s.txns[1] == Fresh(1) && L in s.recs && s.recs[L] == Rec(9)
    ensures Reach(s') && s' == PutTxn(s, 1, Fresh(1).(rset := [Reader(Idle)]))
  {
    var item := Reader(Idle).(confirmed := false);
    var t1 := Fresh(1).(rset := [item]);
    assert [] + [item] == [item];
    Do(s, PutTxn(s, 1, t1), FetchStep(1, L));
    s' := PutTxn(s, 1, Fresh(1).(rset := [Reader(Idle)]));
    assert SetItem(t1, 0, Reader(Idle)).(commit := 0) == s'.txns[1];
    PutTwice(s, 1, t1, s'.txns[1]);
    Do(PutTxn(s, 1, t1), s', ConfirmStep(1, 0));
  }

  lemma LoserFails(s: State) returns (s': State)
    requires Reach(s) && 1 in s.txns && s.txns[1] == Loser(Executing, Idle, Held, 0) && L in s.recs && s.recs[L] == Rec(9)
    ensures Reach(s') && s' == PutTxn(s, 1, Loser(Aborting, Failed, Held, 2))
  {
    var s1 := LoserPrepares(s);
    var t1, t2 := Loser(Renewing, Idle, Held, 0), Loser(Renewing, LockLoaded(9), Held, 0);
    PutTwice(s, 1, t1, t2);
    assert SetItem(t1, 0, Reader(LockLoaded(9))) == t2;
    Do(s1, PutTxn(s, 1, t2), RenewLockStep(1, 0));
    s' := LoserRefused(PutTxn(s, 1, t2));
    PutTwice(s, 1, t2, s'.txns[1]);
  }

  lemma LoserPrepares(s: State) returns (s': State)
    requires Reach(s) && 1 in s.txns && s.txns[1] == Loser(Executing, Idle, Held, 0)
    ensures Reach(s') && s' == PutTxn(s, 1, Loser(Renewing, Idle, Held, 0))
  {
    s' := PutTxn(s, 1, Loser(Renewing, Idle, Held, 0));
    assert Seal(s.txns[1].wset, map[K := [5]]) == s'.txns[1].wset;
    Do(s, s', PrepareStep(1, map[K := [5]]));
  }

  lemma LoserRefused(s: State) returns (s': State)
    requires Reach(s) && 1 in s.txns && s.txns[1] == Loser(Renewing, LockLoaded(9), Held, 0) && L in s.recs && s.recs[L] == Rec(9)
    ensures Reach(s') && s' == PutTxn(s, 1, Loser(Aborting, Failed, Held, 2))
  {
    var t1 := Loser(Renewing, Failed, Held, 0);
    assert SetItem(s.txns[1], 0, Reader(Failed)) == t1;
    Do(s, PutTxn(s, 1, t1), RenewFailStep(1, 0));
    s' := PutTxn(s, 1, Loser(Aborting, Failed, Held, 2));
    PutTwice(s, 1, t1, s'.txns[1]);
    assert t1.rset[0].renewal == Failed;
    Do(PutTxn(s, 1, t1), s', GiveUpStep(1));
  }

  lemma LoserReleases(s: State, stage: Stage, rounds: nat) returns (s': State)
    requires Reach(s) && 1 in s.txns && s.txns[1] == Loser(Aborting, Failed, stage, rounds) && stage != Freed
    requires K in s.recs
    ensures Reach(s')
    ensures s' == PutBoth(s, 1, Loser(Aborting, Failed, Freed, rounds), K, s.recs[K].(lock := 0))
                   .(calm := s.calm && (s.recs[K].lock == 0 || s.recs[K].lock == 1))
  {
    s' := PutBoth(s, 1, Loser(Aborting, Failed, Freed, rounds), K, s.recs[K].(lock := 0))
           .(calm := s.calm && (s.recs[K].lock == 0 || s.recs[K].lock == 1));
    assert SetStage(s.txns[1], K, Freed) == s'.txns[1];
    Do(s, s', ReleaseStep(1, K));
  }

  /** prepare has returned, and commit is about to release again. */
  lemma LoserStartsOver(s: State) returns (s': State)
    requires Reach(s) && 1 in s.txns && s.txns[1] == Loser(Aborting, Failed, Freed, 2)
    ensures Reach(s') && s' == PutTxn(s, 1, Loser(Aborting, Failed, Again, 1))
  {
    s' := PutTxn(s, 1, Loser(Aborting, Failed, Again, 1));
    assert AllAgain(s.txns[1]) == s'.txns[1];
    Do(s, s', NextRoundStep(1));
  }

  ghost predicate Stuck(s: State) {
    && Reach(s) && s.calm && s.clock == 0 && s.init == map[L := [5], K := [5]]
    && s.txns.Keys == {1, 9} && s.cur.Keys == {1, 9} && !Committed(s.txns[9])
    && s.txns[1] == Loser(Aborting, Failed, Again, 1) && s.recs == map[L := Rec(9), K := Rec(0)]
  }

  /** Transaction 9 keeps L locked, so transaction 1 cannot renew its lease on L. */
  lemma Blocked() returns (s: State)
    ensures Reach(s) && s.calm && s.clock == 0 && s.init == map[L := [5], K := [5]]
    ensures s.txns.Keys == {1, 9} && s.cur.Keys == {1, 9} && !Committed(s.txns[9])
    ensures s.txns[1] == Fresh(1) && s.recs == map[L := Rec(9), K := Rec(0)]
  {
    var s0 := State(map[L := [5], K := [5]], map[L := Rec(0), K := Rec(0)], map[], map[], 0, true);
    ReachInit(s0);
    var s1 := Begins(s0, 9);
    var s2 := LocksAndReads(s1, 9, L);
    s := Begins(s2, 1);
  }

  lemma HalfReleased() returns (s: State)
    ensures Stuck(s)
  {
    var s1 := Blocked();
    var s2 := LoserReads(s1);
    var s3 := LocksAndReads(s2, 1, K);
    assert s3.txns[1] == Loser(Executing, Idle, Held, 0);
    s := Releasing(s3);
  }

  lemma Releasing(s3: State) returns (s: State)
    requires Reach(s3) && s3.calm && s3.clock == 0 && s3.init == map[L := [5], K := [5]]
    requires s3.txns.Keys == {1, 9} && s3.cur.Keys == {1, 9} && !Committed(s3.txns[9])
    requires s3.txns[1] == Loser(Executing, Idle, Held, 0) && s3.recs == map[L := Rec(9), K := Rec(1)]
    ensures Stuck(s)
  {
    var s4 := LoserFails(s3);
    var s5 := LoserReleases(s4, Held, 2);
    s := LoserStartsOver(s5);
  }

  ghost predicate Lost(s: State) {
    && Reach(s) && !s.calm && s.init == map[L := [5], K := [5]] && s.txns.Keys == {1, 2, 3, 9}
    && !Committed(s.txns[1]) && !Committed(s.txns[9])
    && s.txns[2] == Winner(2, K, 6, 1) && s.txns[3] == Winner(3, K, 7, 2)
  }

  lemma BothLock(s: State) returns (s': State)
    requires Stuck(s)
    ensures Reach(s') && !s'.calm && s'.clock == 0 && s'.init == s.init && s'.txns.Keys == {1, 2, 3, 9}
    ensures s'.txns[1] == Loser(Aborting, Failed, Freed, 1) && s'.txns[9] == s.txns[9]
    ensures s'.txns[2] == Fresh(2).(wset := map[K := WriteItem(0, 0, [5], [5], Held)], commit := 1)
    ensures s'.txns[3] == Fresh(3).(wset := map[K := WriteItem(0, 0, [5], [5], Held)], commit := 1)
  {
    var s1 := Begins(s, 2);
    var s2 := LocksAndReads(s1, 2, K);
    var s3 := LoserReleases(s2, Again, 1);
    s' := ThirdLocks(s3);
  }

  lemma ThirdLocks(s3: State) returns (s': State)
    requires Reach(s3) && K in s3.recs && s3.recs[K] == Rec(0) && 3 !in s3.txns && 3 !in s3.cur
    ensures Reach(s') && s'.calm == s3.calm && s'.clock == s3.clock && s'.init == s3.init
    ensures s'.txns == s3.txns[3 := Fresh(3).(wset := map[K := WriteItem(0, 0, [5], [5], Held)], commit := 1)]
  {
    var s4 := Begins(s3, 3);
    s' := LocksAndReads(s4, 3, K);
    PutTwice(s3, 3, Fresh(3), s'.txns[3]);
  }

  lemma BothCommit() returns (s: State)
    ensures Lost(s)
  {
    var s0 := HalfReleased();
    var s1 := BothLock(s0);
    var s2 := Commits(s1, 2, K, 6);
    s := Commits(s2, 3, K, 7);
  }

  lemma WinnerTxn(s: State, id: nat, v: int, point: nat)
    requires id in s.txns && s.txns[id] == Winner(id, K, v, point)
    ensures var txns := CommittedTxns(s);
            id in txns && txns[id].installed == map[K := [v]] && (K, [5]) in txns[id].observed
  {
    assert s.txns[id].wset[K].base == [5];
  }

  lemma NoSerialOrder(init: S.Store, txns: S.Committed, order: seq<nat>)
    requires txns.Keys == {2, 3} && txns[2].installed == map[K := [6]] && txns[3].installed == map[K := [7]]
    requires (K, [5]) in txns[2].observed && (K, [5]) in txns[3].observed
    requires 2 in order && 3 in order && forall i | 0 <= i < |order| :: order[i] in txns
    ensures !S.Serial(init, S.Arrange(txns, order))
  {
    var i :| 0 <= i < |order| && order[i] == 2;
    var j :| 0 <= j < |order| && order[j] == 3;
    var h := S.Arrange(txns, order);
    if i < j { S.OverwrittenIsGone(init, h, i, j, K, [5]); } else { S.OverwrittenIsGone(init, h, j, i, K, [5]); }
  }

  /** A reachable state in which one of two committed updates of a record is lost. */
  lemma LostUpdate() returns (s: State)
    ensures Reach(s) && CommittedTxns(s).Keys == {2, 3}
    ensures forall order: seq<nat> | 2 in order && 3 in order && (forall i | 0 <= i < |order| :: order[i] in CommittedTxns(s)) ::
              !S.Serial(s.init, S.Arrange(CommittedTxns(s), order))
  {
    s := BothCommit();
    WinnerTxn(s, 2, 6, 1);
    WinnerTxn(s, 3, 7, 2);
    assert CommittedTxns(s).Keys == {2, 3};
    forall order: seq<nat> | 2 in order && 3 in order && (forall i | 0 <= i < |order| :: order[i] in CommittedTxns(s))
      ensures !S.Serial(s.init, S.Arrange(CommittedTxns(s), order))
    {
      NoSerialOrder(s.init, CommittedTxns(s), order);
    }
  }
}
