/** When the lease protocol lets a transaction go on, and how late it makes it commit. */
module SundialProgress {
  import opened Sundial
  import opened SundialSafety

  ghost predicate NobodyHolds(s: State, k: Key) {
    forall x | x in s.txns :: !Holds(s.txns[x], k)
  }

  /** A coroutine can begin a transaction under any new start time exactly if its last one is over; a
      transaction can read any record, and read what it has locked. */
  lemma BeginsExactlyWhenIdle(run: seq<State>, i: nat, c: nat, id: nat)
    requires Run(run) && i < |run|
    ensures id != 0 && id !in run[i].txns ==>
              ((exists s' :: Begin(run[i], s', c, id)) <==> (c in run[i].cur ==> run[i].cur[c] in run[i].txns && Over(run[i].txns[run[i].cur[c]])))
    ensures In(run[i], id, Executing) ==> forall k | k in run[i].recs :: exists s' :: Fetch(run[i], s', id, k)
    ensures forall k | On(run[i], id, Executing, k) && run[i].txns[id].wset[k].stage == Locked :: exists s' :: LockRead(run[i], s', id, k)
  {
    var s := run[i];
    if id != 0 && id !in s.txns && (c in s.cur ==> s.cur[c] in s.txns && Over(s.txns[s.cur[c]])) {
      assert Begin(s, s.(txns := s.txns[id := Txn(c, Executing, if c in s.cur then s.txns[s.cur[c]].commit else 0, [], map[], 0, 0)],
                         cur := s.cur[c := id]), c, id);
    }
    if In(s, id, Executing) {
      var t := s.txns[id];
      forall k | k in s.recs ensures exists s' :: Fetch(s, s', id, k) {
        var rec := s.recs[k];
        assert Fetch(s, PutTxn(s, id, t.(rset := t.rset + [ReadItem(k, |rec.hist|, rec.wts, rec.rts, rec.val, false, Idle)])), id, k);
      }
      forall k | On(s, id, Executing, k) && t.wset[k].stage == Locked ensures exists s' :: LockRead(s, s', id, k) {
        var rec := s.recs[k];
        assert LockRead(s, PutTxn(s, id, t.(wset := t.wset[k := WriteItem(|rec.hist|, rec.rts, rec.val, rec.val, Held)], commit := Max(t.commit, rec.rts + 1))), id, k);
      }
    }
  }

  /** Commit can be called with any values exactly when everything has been confirmed and locked. */
  lemma PreparesExactlyWhen(run: seq<State>, i: nat, id: nat, vals: map<Key, Value>)
    requires Run(run) && i < |run| && In(run[i], id, Executing) && vals.Keys == run[i].txns[id].wset.Keys
    ensures (exists s' :: Prepare(run[i], s', id, vals)) <==>
              var t := run[i].txns[id];
              (forall k | k in t.wset :: t.wset[k].stage == Held) && forall r | 0 <= r < |t.rset| :: t.rset[r].confirmed
  {
    var s := run[i];
    var t := s.txns[id];
    if (forall k | k in t.wset :: t.wset[k].stage == Held) && forall r | 0 <= r < |t.rset| :: t.rset[r].confirmed {
      assert Prepare(s, PutTxn(s, id, t.(phase := Renewing, wset := Seal(t.wset, vals))), id, vals);
    }
  }

  /** An aborted transaction can go on releasing, round by round, and then end. */
  lemma ReleaseNeverStuck(run: seq<State>, i: nat, id: nat)
    requires Run(run) && i < |run| && run[i].calm && In(run[i], id, Aborting)
    ensures (exists s', k :: Release(run[i], s', id, k)) <==> !((exists s' :: NextRound(run[i], s', id)) || exists s' :: Die(run[i], s', id))
    ensures forall s' :: !(NextRound(run[i], s', id) && Die(run[i], s', id))
  {
    var s := run[i];
    RunInv(run, i);
    assert TxnOk(s, id);
    var t := s.txns[id];
    if All(t, Freed) {
      if 1 < t.rounds { assert NextRound(s, PutTxn(s, id, AllAgain(t)), id); }
      else { assert Die(s, PutTxn(s, id, t.(phase := Dead)), id); }
    } else {
      var k :| k in t.wset && t.wset[k].stage != Freed;
      var rec := s.recs[k];
      assert Release(s, PutBoth(s, id, SetStage(t, k, Freed), k, rec.(lock := 0)).(calm := s.calm && (rec.lock == 0 || rec.lock == id)), id, k);
    }
  }

  /** A record can be locked exactly if nobody holds it. */
  lemma LocksExactlyWhenFree(run: seq<State>, i: nat, id: nat, k: Key)
    requires Run(run) && i < |run| && run[i].calm && In(run[i], id, Executing) && k in run[i].recs && k !in run[i].txns[id].wset
    ensures (exists s' :: LockCas(run[i], s', id, k)) <==> NobodyHolds(run[i], k)
  {
    var s := run[i];
    RunInv(run, i);
    assert KeyInv(s, k) && RecOk(s, k);
    forall x | x in s.txns && Holds(s.txns[x], k) ensures s.recs[k].lock == x && x != 0 { Known(s, x, k); }
    if s.recs[k].lock == 0 {
      var t := s.txns[id];
      assert LockCas(s, PutBoth(s, id, t.(wset := t.wset[k := WriteItem(0, 0, [], [], Locked)]), k, s.recs[k].(lock := id)), id, k);
    }
  }

  /** The second READ confirms the first exactly if no version has been installed in between. */
  lemma ConfirmsExactlyWhenLatest(run: seq<State>, i: nat, id: nat, r: nat)
    requires Run(run) && i < |run| && run[i].calm && Item(run[i], id, Executing, r)
    ensures var item := run[i].txns[id].rset[r]; (exists s' :: Confirm(run[i], s', id, r)) <==> item.ver == |run[i].recs[item.k].hist|
  {
    var s := run[i];
    RunInv(run, i);
    LatestVersion(s, id, r);
    var t := s.txns[id];
    var item := t.rset[r];
    if s.recs[item.k].wts == item.wts {
      assert Confirm(s, PutTxn(s, id, SetItem(t, r, item.(confirmed := true)).(commit := Max(t.commit, item.wts))), id, r);
    }
  }

  lemma LatestVersion(s: State, id: nat, r: nat)
    requires Inv(s) && id in s.txns && r < |s.txns[id].rset| && s.txns[id].rset[r].k in s.recs
    ensures var item := s.txns[id].rset[r]; s.recs[item.k].wts == item.wts <==> item.ver == |s.recs[item.k].hist|
  {
    SameWtsSameVersion(s, id, r);
    Known(s, id, s.txns[id].rset[r].k);
    assert ReadOk(s, id, r);
  }

  /** A lease that is too short is renewed in any case by loading the lock. What follows is decided by
      whether the version is still the last one, whether somebody has promised enough, and whether the
      record was locked: exactly one of the three steps can be taken. */
  lemma RenewsExactlyWhen(run: seq<State>, i: nat, id: nat, r: nat)
    requires Run(run) && i < |run| && run[i].calm && Item(run[i], id, Renewing, r)
    ensures var item, c := run[i].txns[id].rset[r], run[i].txns[id].commit;
            item.renewal == Idle ==> ((exists s' :: RenewLock(run[i], s', id, r)) <==> item.lease < c)
    ensures var item, c, rec := run[i].txns[id].rset[r], run[i].txns[id].commit, run[i].recs[run[i].txns[id].rset[r].k];
            item.renewal.LockLoaded? ==>
              && ((exists s' :: RenewKeep(run[i], s', id, r)) <==> item.ver == |rec.hist| && c <= rec.rts)
              && ((exists s' :: RenewPass(run[i], s', id, r)) <==> item.ver == |rec.hist| && rec.rts < c && item.renewal.lock == 0)
              && ((exists s' :: RenewFail(run[i], s', id, r)) <==> item.ver != |rec.hist| || (rec.rts < c && item.renewal.lock != 0))
    ensures run[i].txns[id].rset[r].renewal == Storing ==> exists s' :: RenewStore(run[i], s', id, r)
  {
    var s := run[i];
    RunInv(run, i);
    LatestVersion(s, id, r);
    var t := s.txns[id];
    var item := t.rset[r];
    var rec := s.recs[item.k];
    match item.renewal
    case Failed => { }
    case Idle => if item.lease < t.commit { assert RenewLock(s, PutTxn(s, id, SetItem(t, r, item.(renewal := LockLoaded(rec.lock)))), id, r); }
    case Storing =>
      var s' := PutBoth(s, id, SetItem(t, r, item.(renewal := Idle, lease := t.commit)), item.k, rec.(wts := item.wts, rts := t.commit));
      assert RenewStore(s, s'.(calm := s.calm && Undisturbed(rec, item, t.commit)), id, r);
    case LockLoaded(l) => LoadedGoesOn(s, id, r);
  }

  lemma LoadedGoesOn(s: State, id: nat, r: nat)
    requires Item(s, id, Renewing, r) && s.txns[id].rset[r].renewal.LockLoaded?
    ensures var item, c, rec := s.txns[id].rset[r], s.txns[id].commit, s.recs[s.txns[id].rset[r].k];
            && (rec.wts == item.wts && c <= rec.rts ==> exists s' :: RenewKeep(s, s', id, r))
            && (rec.wts == item.wts && rec.rts < c && item.renewal.lock == 0 ==> exists s' :: RenewPass(s, s', id, r))
            && (rec.wts != item.wts || (rec.rts < c && item.renewal.lock != 0) ==> exists s' :: RenewFail(s, s', id, r))
  {
    var t := s.txns[id];
    var item := t.rset[r];
    var rec := s.recs[item.k];
    if rec.wts != item.wts || (rec.rts < t.commit && item.renewal.lock != 0) {
      assert RenewFail(s, PutTxn(s, id, SetItem(t, r, item.(renewal := Failed))), id, r);
    } else if t.commit <= rec.rts {
      assert RenewKeep(s, PutTxn(s, id, SetItem(t, r, item.(renewal := Idle, lease := t.commit))), id, r);
    } else {
      assert RenewPass(s, PutTxn(s, id, SetItem(t, r, item.(renewal := Storing))), id, r);
    }
  }

  /** When all renewals are over, a transaction commits if none has failed and gives up if one has. */
  lemma DecidesExactlyWhen(run: seq<State>, i: nat, id: nat)
    requires Run(run) && i < |run| && In(run[i], id, Renewing)
    requires forall r | 0 <= r < |run[i].txns[id].rset| ::
               var item := run[i].txns[id].rset[r]; item.renewal == Failed || (item.renewal == Idle && run[i].txns[id].commit <= item.lease)
    ensures (exists s' :: Decide(run[i], s', id)) <==> forall r | 0 <= r < |run[i].txns[id].rset| :: run[i].txns[id].rset[r].renewal != Failed
    ensures (exists s' :: GiveUp(run[i], s', id)) <==> !exists s' :: Decide(run[i], s', id)
  {
    var s := run[i];
    var t := s.txns[id];
    if forall r | 0 <= r < |t.rset| :: t.rset[r].renewal != Failed {
      assert Decide(s, PutTxn(s, id, t.(phase := Installing, point := s.clock + 1)).(clock := s.clock + 1), id);
    } else {
      assert GiveUp(s, PutTxn(s, id, t.(phase := Aborting, rounds := 2)), id);
    }
  }

  /** A committed transaction can always go on installing until it holds nothing, and then finish. */
  lemma InstallNeverStuck(run: seq<State>, i: nat, id: nat, k: Key)
    requires Run(run) && i < |run| && run[i].calm && In(run[i], id, Installing)
    ensures On(run[i], id, Installing, k) ==>
              ((exists s' :: Install(run[i], s', id, k) || Unlock(run[i], s', id, k)) <==> Holds(run[i].txns[id], k))
    ensures (exists s' :: Finish(run[i], s', id)) <==> forall j | j in run[i].txns[id].wset :: !Holds(run[i].txns[id], j)
  {
    var s := run[i];
    RunInv(run, i);
    assert TxnOk(s, id);
    var t := s.txns[id];
    if On(s, id, Installing, k) && t.wset[k].stage == Held {
      assert Install(s, PutBoth(s, id, SetStage(t, k, Stored), k,
                                s.recs[k].(wts := t.commit, rts := t.commit, val := t.wset[k].val, hist := s.recs[k].hist + [id])), id, k);
    }
    if On(s, id, Installing, k) && t.wset[k].stage == Stored {
      assert Unlock(s, PutBoth(s, id, SetStage(t, k, Unlocked), k, s.recs[k].(lock := 0)), id, k);
    }
    if All(t, Unlocked) { assert Finish(s, PutTxn(s, id, t.(phase := Done)), id); }
  }

  // ---------------------------------------------------------------------------------------------
  // Commit times
  // ---------------------------------------------------------------------------------------------

  /** The commit time is one that something asks for: a version read, a lease on something written, or the
      transaction that the coroutine ran before. */
  ghost predicate Attained(s: State, id: nat)
    requires id in s.txns
  {
    var t := s.txns[id];
    || t.commit == 0
    || (exists r :: 0 <= r < |t.rset| && t.rset[r].confirmed && t.rset[r].wts == t.commit)
    || (exists k :: k in t.wset && t.wset[k].rts + 1 == t.commit)
    || (exists x :: Earlier(s, id, x))
  }

  predicate Earlier(s: State, id: nat, x: nat)
    requires id in s.txns
  {
    x in s.txns && x != id && s.txns[x].cor == s.txns[id].cor && Over(s.txns[x]) && s.txns[x].commit == s.txns[id].commit
  }

  predicate CurOk(s: State, c: nat) {
    c in s.cur ==> s.cur[c] in s.txns && s.txns[s.cur[c]].cor == c
  }

  lemma StepKeepsCur(s: State, s': State, step: Step, c: nat)
    requires NextBy(s, s', step) && CurOk(s, c)
    ensures CurOk(s', c)
  {
  }

  lemma {:induction false} CurIsOk(run: seq<State>, i: nat, c: nat)
    requires Run(run) && i < |run|
    ensures CurOk(run[i], c)
  {
    if i > 0 {
      CurIsOk(run, i - 1, c);
      assert StepAt(run, i - 1);
      var step :| NextBy(run[i - 1], run[i], step);
      StepKeepsCur(run[i - 1], run[i], step, c);
    }
  }

  lemma EarlierStays(s: State, s': State, step: Step, id: nat, x: nat)
    requires NextBy(s, s', step) && id in s.txns && Earlier(s, id, x) && id in s'.txns && s'.txns[id].commit == s.txns[id].commit
    ensures Earlier(s', id, x)
  {
  }

  /** What id's own step may do, and what others' steps leave alone. */
  ghost predicate Grew(a: Txn, b: Txn) {
    && a.cor == b.cor && a.wset.Keys <= b.wset.Keys && |a.rset| <= |b.rset|
    && forall r | 0 <= r < |a.rset| :: a.rset[r].confirmed ==> b.rset[r].confirmed && b.rset[r].wts == a.rset[r].wts
  }

  lemma WholeGrows(s: State, s': State, step: Step, id: nat)
    requires NextBy(s, s', step) && id in s.txns && !step.BeginStep? && IsWhole(step)
    ensures id in s'.txns && Grew(s.txns[id], s'.txns[id]) && s'.txns[id].commit == s.txns[id].commit
    ensures forall k | k in s.txns[id].wset :: s'.txns[id].wset[k].rts == s.txns[id].wset[k].rts
  {
  }

  lemma LocalGrows(s: State, s': State, step: Step, id: nat)
    requires NextBy(s, s', step) && id in s.txns && !IsWhole(step)
    ensures id in s'.txns && Grew(s.txns[id], s'.txns[id])
    ensures s'.txns[id].commit == s.txns[id].commit || ((step.ConfirmStep? || step.LockReadStep?) && step.id == id)
  {
  }

  lemma LocalKeepsLeases(s: State, s': State, step: Step, id: nat)
    requires NextBy(s, s', step) && id in s.txns && id in s'.txns && !IsWhole(step) && !step.LockReadStep?
    ensures forall k | k in s.txns[id].wset :: k in s'.txns[id].wset && s'.txns[id].wset[k].rts == s.txns[id].wset[k].rts
  {
  }

  lemma StepGrows(s: State, s': State, step: Step, id: nat)
    requires NextBy(s, s', step) && id in s.txns && !step.BeginStep?
    ensures id in s'.txns && Grew(s.txns[id], s'.txns[id])
    ensures s'.txns[id].commit == s.txns[id].commit || ((step.ConfirmStep? || step.LockReadStep?) && step.id == id)
    ensures !step.LockReadStep? ==> forall k | k in s.txns[id].wset :: s'.txns[id].wset[k].rts == s.txns[id].wset[k].rts
  {
    if IsWhole(step) {
      WholeGrows(s, s', step, id);
    } else {
      LocalGrows(s, s', step, id);
      if !step.LockReadStep? { LocalKeepsLeases(s, s', step, id); }
    }
  }

  lemma StepKeepsAttained(s: State, s': State, step: Step, id: nat)
    requires NextBy(s, s', step) && id in s.txns && Attained(s, id) && id in s'.txns
    requires forall k | k in s.txns[id].wset && s.txns[id].wset[k].stage == Locked :: s.txns[id].wset[k].rts == 0
    ensures Attained(s', id)
  {
    var t := s.txns[id];
    if step.BeginStep? {
      if x :| Earlier(s, id, x) { assert Earlier(s', id, x); }
    } else {
      StepGrows(s, s', step, id);
      var t' := s'.txns[id];
      if t'.commit == t.commit {
        if x :| Earlier(s, id, x) { EarlierStays(s, s', step, id, x); }
        if step.LockReadStep? && step.id == id { LockReadAttains(s, s', id, step.k); }
      } else if step.LockReadStep? {
        LockReadAttains(s, s', id, step.k);
      } else {
        assert t'.rset[step.i].confirmed && t'.rset[step.i].wts == t'.commit;
      }
    }
  }

  lemma LockReadAttains(s: State, s': State, id: nat, k: Key)
    requires LockRead(s, s', id, k) && Attained(s, id) && s.txns[id].wset[k].rts == 0
    ensures Attained(s', id)
  {
    var t, t' := s.txns[id], s'.txns[id];
    if t'.commit == t'.wset[k].rts + 1 {
      assert k in t'.wset;
    } else {
      assert t'.commit == t.commit;
      if x :| Earlier(s, id, x) { assert Earlier(s', id, x); }
      if r :| 0 <= r < |t.rset| && t.rset[r].confirmed && t.rset[r].wts == t.commit { assert t'.rset[r] == t.rset[r]; }
      if j :| j in t.wset && t.wset[j].rts + 1 == t.commit { assert j in t'.wset; }
    }
  }

  lemma LockedHasNoLease(s: State, s': State, step: Step, id: nat, k: Key)
    requires NextBy(s, s', step) && id in s'.txns && k in s'.txns[id].wset && s'.txns[id].wset[k].stage == Locked
    requires id in s.txns && k in s.txns[id].wset && s.txns[id].wset[k].stage == Locked ==> s.txns[id].wset[k].rts == 0
    ensures s'.txns[id].wset[k].rts == 0
  {
  }

  lemma {:induction false} LockedMeansUnread(run: seq<State>, i: nat, id: nat, k: Key)
    requires Run(run) && i < |run| && id in run[i].txns && k in run[i].txns[id].wset && run[i].txns[id].wset[k].stage == Locked
    ensures run[i].txns[id].wset[k].rts == 0
  {
    if i > 0 {
      var s := run[i - 1];
      assert StepAt(run, i - 1);
      var step :| NextBy(s, run[i], step);
      if id in s.txns && k in s.txns[id].wset && s.txns[id].wset[k].stage == Locked { LockedMeansUnread(run, i - 1, id, k); }
      LockedHasNoLease(s, run[i], step, id, k);
    }
  }

  lemma {:induction false} CommitIsAttained(run: seq<State>, i: nat, id: nat)
    requires Run(run) && i < |run| && id in run[i].txns
    ensures Attained(run[i], id)
  {
    if i > 0 {
      var s := run[i - 1];
      assert StepAt(run, i - 1);
      var step :| NextBy(s, run[i], step);
      if id in s.txns {
        CommitIsAttained(run, i - 1, id);
        forall k | k in s.txns[id].wset && s.txns[id].wset[k].stage == Locked ensures s.txns[id].wset[k].rts == 0 {
          LockedMeansUnread(run, i - 1, id, k);
        }
        StepKeepsAttained(s, run[i], step, id);
      } else if step.c in s.cur {
        CurIsOk(run, i - 1, step.c);
        assert Earlier(run[i], id, s.cur[step.c]);
      }
    }
  }

  /** A transaction commits as early as it can: at the least time that is not before any version it has
      read, past every lease on what it writes, and not before its coroutine's earlier commit times. */
  lemma CommitTimeIsLeast(run: seq<State>, i: nat, id: nat)
    requires Run(run) && i < |run| && run[i].calm && In(run[i], id, Renewing)
    ensures var t := run[i].txns[id];
            && (forall r | 0 <= r < |t.rset| :: t.rset[r].wts <= t.commit)
            && (forall k | k in t.wset :: t.wset[k].rts + 1 <= t.commit)
            && (t.commit != 0 ==>
                  || (exists r :: 0 <= r < |t.rset| && t.rset[r].wts == t.commit)
                  || (exists k :: k in t.wset && t.wset[k].rts + 1 == t.commit)
                  || (exists x :: Earlier(run[i], id, x)))
  {
    var s := run[i];
    RunInv(run, i);
    CommitIsAttained(run, i, id);
    assert TxnOk(s, id);
    var t := s.txns[id];
    forall r | 0 <= r < |t.rset| ensures t.rset[r].wts <= t.commit {
      Known(s, id, t.rset[r].k);
      assert ReadOk(s, id, r);
    }
    forall k | k in t.wset ensures t.wset[k].rts + 1 <= t.commit { Known(s, id, k); }
  }

  // ---------------------------------------------------------------------------------------------
  // Leases
  // ---------------------------------------------------------------------------------------------

  /** x has stopped reading and locking, and its commit time is time. */
  predicate CommitsAt(s: State, x: nat, time: nat) {
    x in s.txns && !s.txns[x].phase.Executing? && s.txns[x].commit == time
  }

  lemma CommitsAtStays(s: State, s': State, step: Step, x: nat, time: nat)
    requires NextBy(s, s', step) && CommitsAt(s, x, time)
    ensures CommitsAt(s', x, time)
  {
  }

  lemma LeaseChanges(s: State, s': State, step: Step, k: Key)
    requires NextBy(s, s', step) && k in s.recs && k in s'.recs && s'.recs[k].rts != s.recs[k].rts
    ensures (step.RenewStoreStep? || step.InstallStep?) && CommitsAt(s', step.id, s'.recs[k].rts)
  {
  }

  lemma SameRecords(s: State, s': State, step: Step)
    requires NextBy(s, s', step)
    ensures s'.recs.Keys == s.recs.Keys
  {
  }

  /** A record is never promised for longer than some transaction's commit time. */
  lemma {:induction false} LeaseIsACommitTime(run: seq<State>, i: nat, k: Key)
    requires Run(run) && i < |run| && k in run[i].recs
    ensures run[i].recs[k].rts == 0 || exists x :: CommitsAt(run[i], x, run[i].recs[k].rts)
  {
    if i > 0 {
      var s := run[i - 1];
      assert StepAt(run, i - 1);
      var step :| NextBy(s, run[i], step);
      SameRecords(s, run[i], step);
      LeaseIsACommitTime(run, i - 1, k);
      if s.recs[k].rts == run[i].recs[k].rts {
        if x :| CommitsAt(s, x, s.recs[k].rts) { CommitsAtStays(s, run[i], step, x, s.recs[k].rts); }
      } else {
        LeaseChanges(s, run[i], step, k);
      }
    }
  }
}
