/** A renewal whose store comes after somebody else has locked and overwritten the record.

    The handler of a renewal loads the lock and the timestamps and then stores. When another
    transaction commits a new version in between, the store puts the old write time back, and the
    renewing transaction commits with a value that is no longer the one at its commit time. */
module SundialLateRenewal {
  import opened Sundial
  import opened SundialSafety
  import opened SundialTheorems
  import opened SundialLostUpdate
  import S = Serializability

  function Item(renewal: Renewal, lease: nat): ReadItem { ReadItem(L, 0, 0, lease, [5], true, renewal) }

  /** The renewing transaction: it has read L and locked K. */
  function Slow(phase: Phase, renewal: Renewal, lease: nat, point: nat): Txn {
    Txn(1, phase, 1, [Item(renewal, lease)], map[K := WriteItem(0, 0, [5], [5], Held)], point, 0)
  }

  lemma SlowReads(s: State) returns (s': State)
    requires Reach(s) && 1 in s.txns && s.txns[1] == Fresh(1) && L in s.recs && s.recs[L] == Rec(0)
    ensures Reach(s') && s' == PutTxn(s, 1, Fresh(1).(rset := [Item(Idle, 0)]))
  {
    var item := Item(Idle, 0).(confirmed := false);
    var t1 := Fresh(1).(rset := [item]);
    assert [] + [item] == [item];
    Do(s, PutTxn(s, 1, t1), FetchStep(1, L));
    s' := PutTxn(s, 1, Fresh(1).(rset := [Item(Idle, 0)]));
    assert SetItem(t1, 0, Item(Idle, 0)).(commit := 0) == s'.txns[1];
    PutTwice(s, 1, t1, s'.txns[1]);
    Do(PutTxn(s, 1, t1), s', ConfirmStep(1, 0));
  }

  /** It has found L unlocked and its lease too short. */
  lemma SlowChecks(s: State) returns (s': State)
    requires Reach(s) && 1 in s.txns && s.txns[1] == Slow(Executing, Idle, 0, 0) && L in s.recs && s.recs[L] == Rec(0)
    ensures Reach(s') && s' == PutTxn(s, 1, Slow(Renewing, Storing, 0, 0))
  {
    var s1 := SlowPrepares(s);
    var t1, t2 := Slow(Renewing, Idle, 0, 0), Slow(Renewing, LockLoaded(0), 0, 0);
    PutTwice(s, 1, t1, t2);
    assert SetItem(t1, 0, Item(LockLoaded(0), 0)) == t2;
    Do(s1, PutTxn(s, 1, t2), RenewLockStep(1, 0));
    s' := SlowPasses(PutTxn(s, 1, t2));
    PutTwice(s, 1, t2, s'.txns[1]);
  }

  lemma SlowPrepares(s: State) returns (s': State)
    requires Reach(s) && 1 in s.txns && s.txns[1] == Slow(Executing, Idle, 0, 0)
    ensures Reach(s') && s' == PutTxn(s, 1, Slow(Renewing, Idle, 0, 0))
  {
    s' := PutTxn(s, 1, Slow(Renewing, Idle, 0, 0));
    assert Seal(s.txns[1].wset, map[K := [5]]) == s'.txns[1].wset;
    Do(s, s', PrepareStep(1, map[K := [5]]));
  }

  lemma SlowPasses(s: State) returns (s': State)
    requires Reach(s) && 1 in s.txns && s.txns[1] == Slow(Renewing, LockLoaded(0), 0, 0) && L in s.recs && s.recs[L] == Rec(0)
    ensures Reach(s') && s' == PutTxn(s, 1, Slow(Renewing, Storing, 0, 0))
  {
    s' := PutTxn(s, 1, Slow(Renewing, Storing, 0, 0));
    assert SetItem(s.txns[1], 0, Item(Storing, 0)) == s'.txns[1];
    Do(s, s', RenewPassStep(1, 0));
  }

  lemma SlowCommits(s: State) returns (s': State)
    requires Reach(s) && 1 in s.txns && s.txns[1] == Slow(Renewing, Storing, 0, 0) && L in s.recs
    ensures Reach(s') && s'.init == s.init && s'.txns == s.txns[1 := Slow(Installing, Idle, 1, s.clock + 1)]
  {
    var t1 := Slow(Renewing, Idle, 1, 0);
    var s1 := PutBoth(s, 1, t1, L, s.recs[L].(wts := 0, rts := 1)).(calm := s.calm && Undisturbed(s.recs[L], Item(Storing, 0), 1));
    assert SetItem(s.txns[1], 0, Item(Idle, 1)) == t1;
    Do(s, s1, RenewStoreStep(1, 0));
    s' := PutTxn(s1, 1, Slow(Installing, Idle, 1, s.clock + 1)).(clock := s.clock + 1);
    PutTwice(s, 1, t1, s'.txns[1]);
    Do(s1, s', DecideStep(1));
  }

  lemma Installs(s: State, id: nat, k: Key, v: int, point: nat) returns (s': State)
    requires Reach(s) && id in s.txns && s.txns[id] == Winner(id, k, v, point) && k in s.recs && s.recs[k] == Rec(id)
    ensures Reach(s')
    ensures s' == PutBoth(s, id, SetStage(s.txns[id], k, Stored), k, Record(id, 1, 1, [v], [id]))
  {
    s' := PutBoth(s, id, SetStage(s.txns[id], k, Stored), k, Record(id, 1, 1, [v], [id]));
    assert [] + [id] == [id];
    Do(s, s', InstallStep(id, k));
  }

  lemma Overtaken() returns (s: State)
    ensures Reach(s) && s.init == map[L := [5], K := [5]] && s.clock == 1 && L in s.recs
    ensures s.txns == map[1 := Slow(Renewing, Storing, 0, 0), 2 := SetStage(Winner(2, L, 6, 1), L, Stored)]
  {
    var s0 := State(map[L := [5], K := [5]], map[L := Rec(0), K := Rec(0)], map[], map[], 0, true);
    ReachInit(s0);
    var s1 := Begins(s0, 1);
    var s2 := SlowReads(s1);
    var s3 := LocksAndReads(s2, 1, K);
    assert s3.txns[1] == Slow(Executing, Idle, 0, 0);
    var s4 := SlowChecks(s3);
    s := Overtakes(s4);
  }

  lemma Overtakes(s: State) returns (s': State)
    requires Reach(s) && s.txns.Keys == {1} && s.txns[1] == Slow(Renewing, Storing, 0, 0) && 2 !in s.cur
    requires s.clock == 0 && L in s.recs && s.recs[L] == Rec(0)
    ensures Reach(s') && s'.init == s.init && s'.clock == 1 && L in s'.recs
    ensures s'.txns == map[1 := Slow(Renewing, Storing, 0, 0), 2 := SetStage(Winner(2, L, 6, 1), L, Stored)]
  {
    var s1 := Begins(s, 2);
    var s2 := LocksAndReads(s1, 2, L);
    PutTwice(s, 2, Fresh(2), s2.txns[2]);
    s' := Overwrites(s2);
  }

  lemma Overwrites(s: State) returns (s': State)
    requires Reach(s) && s.txns.Keys == {1, 2} && s.txns[1] == Slow(Renewing, Storing, 0, 0)
    requires s.txns[2] == Fresh(2).(wset := map[L := WriteItem(0, 0, [5], [5], Held)], commit := 1)
    requires s.clock == 0 && L in s.recs && s.recs[L] == Rec(2)
    ensures Reach(s') && s'.init == s.init && s'.clock == 1 && L in s'.recs
    ensures s'.txns == map[1 := Slow(Renewing, Storing, 0, 0), 2 := SetStage(Winner(2, L, 6, 1), L, Stored)]
  {
    var s3 := Commits(s, 2, L, 6);
    s' := Installs(s3, 2, L, 6, 1);
  }

  ghost predicate BothCommitted(s: State) {
    s.txns == map[1 := Slow(Installing, Idle, 1, 2), 2 := SetStage(Winner(2, L, 6, 1), L, Stored)]
  }

  lemma StampsOf(s: State)
    requires BothCommitted(s)
    ensures S.Enumerates([2, 1], Stamps(s)) && CommittedTxns(s).Keys == {1, 2}
  {
    assert Stamps(s) == map[1 := S.Stamp(1, 2), 2 := S.Stamp(1, 1)];
    assert [2, 1][0] == 2 && [2, 1][1] == 1;
  }

  lemma SlowTxn(s: State)
    requires BothCommitted(s)
    ensures var txns := CommittedTxns(s); 1 in txns && (L, [5]) in txns[1].observed && txns[1].installed == map[K := [5]]
  {
    assert s.txns[1].rset[0] == Item(Idle, 1);
  }

  lemma FastTxn(s: State)
    requires BothCommitted(s)
    ensures var txns := CommittedTxns(s); 2 in txns && txns[2].installed == map[L := [6]]
  {
  }

  /** Both transactions commit at time 1, the overtaking one first, and the other has not seen it. */
  lemma StaleAtCommitTime() returns (s: State)
    ensures Reach(s) && S.Enumerates([2, 1], Stamps(s))
    ensures !S.Serial(s.init, S.Arrange(CommittedTxns(s), [2, 1]))
  {
    var s0 := Overtaken();
    s := SlowCommits(s0);
    assert BothCommitted(s);
    StampsOf(s);
    SlowTxn(s);
    FastTxn(s);
    S.OverwrittenIsGone(s.init, S.Arrange(CommittedTxns(s), [2, 1]), 0, 1, L, [5]);
  }
}
