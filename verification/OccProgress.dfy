/** When the optimistic protocol lets a transaction go on, in every run: in terms of who holds the
    record and of the versions installed on it. */
module OccProgress {
  import opened Occ
  import opened OccSafety

  ghost predicate NobodyHolds(s: State, k: Key) {
    forall x | x in s.txns :: !Holds(s.txns[x], k)
  }

  lemma UnlockedMeansFree(s: State, k: Key)
    requires Inv(s) && k in s.recs
    ensures s.recs[k].lock == 0 <==> NobodyHolds(s, k)
  {
    assert KeyInv(s, k) && RecOk(s, k);
    forall x | x in s.txns && Holds(s.txns[x], k) ensures s.recs[k].lock != 0 { Known(s, x, k); }
  }

  /** Somebody has raised the flag and not yet published the new value. */
  predicate BeingWritten(s: State, x: nat, k: Key) {
    Writes(s, x, k) && s.txns[x].wset[k].stage.Flagged?
  }

  lemma WriterOverwrites(s: State, x: nat, k: Key)
    requires Inv(s) && k in s.recs && BeingWritten(s, x, k)
    ensures Overwriting(s, k)
  {
    Known(s, x, k);
    IsHolder(s, x, k);
  }

  /** The sequence number is that of version m exactly if m is the last one and nobody overwrites it. */
  lemma SeqnoTells(s: State, k: Key, m: nat)
    requires Inv(s) && k in s.recs
    ensures s.recs[k].seqno == 2 * m <==> m == |s.recs[k].hist| && forall x :: !BeingWritten(s, x, k)
  {
    assert KeyInv(s, k) && RecOk(s, k);
    if x :| BeingWritten(s, x, k) { WriterOverwrites(s, x, k); }
    if Overwriting(s, k) { assert BeingWritten(s, Holder(s, k), k); }
  }

  /** A coroutine can begin a transaction under any new number exactly if its last one is over, and a
      transaction can start to read any record. */
  lemma BeginsExactlyWhenIdle(run: seq<State>, i: nat, c: nat, id: nat)
    requires Run(run) && i < |run|
    ensures c != 0 && id !in run[i].txns ==>
              ((exists s' :: Begin(run[i], s', c, id)) <==> (c in run[i].cur ==> run[i].cur[c] in run[i].txns && Over(run[i].txns[run[i].cur[c]])))
    ensures In(run[i], id, Executing) && run[i].txns[id].op == NoOp ==> forall k | k in run[i].recs :: exists s' :: GetLoad(run[i], s', id, k, false)
  {
    var s := run[i];
    RunInv(run, i);
    if c != 0 && id !in s.txns && (c in s.cur ==> Over(s.txns[s.cur[c]])) {
      assert Begin(s, s.(txns := s.txns[id := Txn(c, Executing, NoOp, [], map[], 0, {})], cur := s.cur[c := id]), c, id);
    }
    if In(s, id, Executing) && s.txns[id].op == NoOp {
      forall k | k in s.recs ensures exists s' :: GetLoad(s, s', id, k, false) {
        assert GetLoad(s, PutTxn(s, id, s.txns[id].(op := Copying(k, false, s.recs[k].seqno, []))), id, k, false);
      }
    }
  }

  /** A copied value is accepted exactly if no version has been installed since its sequence number was
      loaded and none is being written. */
  lemma GetAcceptedExactlyWhen(run: seq<State>, i: nat, id: nat, k: Key, m: nat)
    requires Run(run) && i < |run| && In(run[i], id, Executing) && k in run[i].recs
    requires var op := run[i].txns[id].op; op.Copying? && op.k == k && op.first == 2 * m && |op.buf| == |run[i].recs[k].words|
    ensures (exists s' :: GetCheck(run[i], s', id, k)) <==> m == |run[i].recs[k].hist| && forall x :: !BeingWritten(run[i], x, k)
  {
    var s := run[i];
    RunInv(run, i);
    SeqnoTells(s, k, m);
    var t := s.txns[id];
    if s.recs[k].seqno == t.op.first {
      var s' := PutTxn(s, id,
                       if t.op.forWrite then t.(op := NoOp, wset := t.wset[k := WriteItem(t.op.first, t.op.buf, t.op.buf, Free)])
                       else t.(op := NoOp, rset := t.rset + [ReadItem(k, t.op.first, t.op.buf, Unchecked)]));
      assert GetCheck(s, s', id, k);
    }
  }

  /** The copy itself can always go on, and be started again. */
  lemma GetNeverStuck(run: seq<State>, i: nat, id: nat, k: Key)
    requires Run(run) && i < |run| && In(run[i], id, Executing) && k in run[i].recs && run[i].txns[id].op.Copying? && run[i].txns[id].op.k == k
    ensures exists s' :: GetLoad(run[i], s', id, k, run[i].txns[id].op.forWrite)
    ensures (exists s' :: GetWord(run[i], s', id, k)) <==> |run[i].txns[id].op.buf| != |run[i].recs[k].words|
  {
    var s := run[i];
    RunInv(run, i);
    Known(s, id, k);
    var t := s.txns[id];
    assert GetLoad(s, PutTxn(s, id, t.(op := Copying(k, t.op.forWrite, s.recs[k].seqno, []))), id, k, t.op.forWrite);
    if |t.op.buf| < |s.recs[k].words| {
      assert GetWord(s, PutTxn(s, id, t.(op := t.op.(buf := t.op.buf + [s.recs[k].words[|t.op.buf|]]))), id, k);
    }
  }

  /** A transaction can start to commit with any values of the records' sizes. */
  lemma MayCommit(run: seq<State>, i: nat, id: nat, vals: map<Key, Value>)
    requires Run(run) && i < |run| && In(run[i], id, Executing) && run[i].txns[id].op == NoOp
    ensures (exists s' :: StartCommit(run[i], s', id, vals)) <==>
              vals.Keys == run[i].txns[id].wset.Keys && forall k | k in vals && k in run[i].init :: |vals[k]| == |run[i].init[k]|
  {
    var s := run[i];
    RunInv(run, i);
    assert TxnOk(s, id);
    forall k | k in s.txns[id].wset ensures k in s.init && |s.txns[id].wset[k].base| == |s.init[k]| { Known(s, id, k); }
    if vals.Keys == s.txns[id].wset.Keys && forall k | k in vals && k in s.init :: |vals[k]| == |s.init[k]| {
      assert StartCommit(s, PutTxn(s, id, s.txns[id].(phase := Locking, wset := Seal(s.txns[id].wset, vals))), id, vals);
    }
  }

  /** A record can be locked exactly if nobody holds it. */
  lemma LocksExactlyWhenFree(run: seq<State>, i: nat, id: nat, k: Key)
    requires Run(run) && i < |run| && On(run[i], id, Locking, k) && run[i].txns[id].wset[k].stage == Free
    ensures (exists s' :: TryLock(run[i], s', id, k)) <==> NobodyHolds(run[i], k)
  {
    var s := run[i];
    RunInv(run, i);
    UnlockedMeansFree(s, k);
    if s.recs[k].lock == 0 {
      assert TryLock(s, PutBoth(s, id, SetStage(s.txns[id], k, Swapped), k, s.recs[k].(lock := s.txns[id].cor)), id, k);
    }
  }

  /** ... and the lock is granted exactly if the version that was read is still the last one. */
  lemma GrantedExactlyWhenLatest(run: seq<State>, i: nat, id: nat, k: Key)
    requires Run(run) && i < |run| && On(run[i], id, Locking, k) && run[i].txns[id].wset[k].stage == Swapped
    ensures (exists s' :: LockVerify(run[i], s', id, k)) <==> run[i].txns[id].wset[k].seqno == 2 * |run[i].recs[k].hist|
  {
    var s := run[i];
    RunInv(run, i);
    Known(s, id, k);
    IsHolder(s, id, k);
    if s.recs[k].seqno == s.txns[id].wset[k].seqno {
      assert LockVerify(s, PutTxn(s, id, SetStage(s.txns[id], k, Verified)), id, k);
    }
  }

  /** The two loads of a validation succeed exactly if the version that was read is still the last one and
      is not being overwritten, and exactly if nobody holds the record. */
  lemma ValidatesExactlyWhen(run: seq<State>, i: nat, id: nat, r: nat)
    requires Run(run) && i < |run| && In(run[i], id, Validating) && r < |run[i].txns[id].rset|
    ensures run[i].txns[id].rset[r].k in run[i].recs
    ensures var item := run[i].txns[id].rset[r];
            item.check == Unchecked ==>
              ((exists s' :: ValidateSeq(run[i], s', id, r)) <==>
                 item.seqno == 2 * |run[i].recs[item.k].hist| && forall x :: !BeingWritten(run[i], x, item.k))
    ensures var item := run[i].txns[id].rset[r];
            item.check == SeqMatched ==> ((exists s' :: ValidateLock(run[i], s', id, r)) <==> NobodyHolds(run[i], item.k))
  {
    var s := run[i];
    RunInv(run, i);
    assert TxnOk(s, id);
    var t := s.txns[id];
    var item := t.rset[r];
    Known(s, id, item.k);
    assert ReadOk(s, id, r);
    SeqnoTells(s, item.k, item.seqno / 2);
    UnlockedMeansFree(s, item.k);
    if item.check == Unchecked && s.recs[item.k].seqno == item.seqno {
      assert ValidateSeq(s, PutTxn(s, id, SetCheck(t, r, SeqMatched)), id, r);
    }
    if item.check == SeqMatched && s.recs[item.k].lock == 0 {
      assert ValidateLock(s, PutTxn(s, id, SetCheck(t, r, Valid(s.recs[item.k].seqno == item.seqno))), id, r);
    }
  }

  /** A transaction whose write set is locked, and then whose reads are valid, goes on. */
  lemma DecidesExactlyWhen(run: seq<State>, i: nat, id: nat)
    requires Run(run) && i < |run| && id in run[i].txns
    ensures In(run[i], id, Locking) ==>
              ((exists s' :: LockPoint(run[i], s', id)) <==> forall k | k in run[i].txns[id].wset :: run[i].txns[id].wset[k].stage == Verified)
    ensures In(run[i], id, Validating) ==>
              ((exists s' :: Decide(run[i], s', id)) <==> forall r | 0 <= r < |run[i].txns[id].rset| :: run[i].txns[id].rset[r].check.Valid?)
  {
    var s := run[i];
    var t := s.txns[id];
    if In(s, id, Locking) && forall k | k in t.wset :: t.wset[k].stage == Verified {
      assert LockPoint(s, PutTxn(s, id, t.(phase := Validating, lockPoint := s.clock + 1)).(clock := s.clock + 1), id);
    }
    if In(s, id, Validating) && forall r | 0 <= r < |t.rset| :: t.rset[r].check.Valid? {
      assert Decide(s, PutTxn(s, id, t.(phase := Logging)), id);
    }
  }

  // ---------------------------------------------------------------------------------------------
  // A committed transaction
  // ---------------------------------------------------------------------------------------------

  /** A backup can apply a committed write exactly once: as long as it has only what the primary has. */
  lemma AppliesExactlyOnce(run: seq<State>, i: nat, id: nat, b: Node, k: Key)
    requires Run(run) && i < |run| && On(run[i], id, Logging, k) && b in run[i].recs[k].backup
    ensures (exists s' :: Apply(run[i], s', id, b, k)) <==> run[i].recs[k].backup[b].log == run[i].recs[k].hist
  {
    var s := run[i];
    RunInv(run, i);
    Known(s, id, k);
    IsHolder(s, id, k);
    assert TxnOk(s, id) && BackupOk(s, k, b);
    var t, rec := s.txns[id], s.recs[k];
    assert rec.hist + [id] != rec.hist;
    if (b, k) !in t.acked {
      assert Apply(s, PutBoth(s, id, t.(acked := t.acked + {(b, k)}), k,
                              rec.(backup := rec.backup[b := Backup(t.wset[k].val, rec.backup[b].log + [id])])), id, b, k);
    }
  }

  /** It goes on to install exactly when every backup of every record it writes has its write. */
  lemma InstallsExactlyWhenLogged(run: seq<State>, i: nat, id: nat)
    requires Run(run) && i < |run| && In(run[i], id, Logging)
    ensures (exists s' :: LogDone(run[i], s', id)) <==>
              forall k, b | k in run[i].txns[id].wset && k in run[i].recs && b in run[i].recs[k].backup ::
                run[i].recs[k].backup[b].log == run[i].recs[k].hist + [id]
  {
    var s := run[i];
    RunInv(run, i);
    assert TxnOk(s, id);
    var t := s.txns[id];
    forall k, b | k in t.wset && k in s.recs && b in s.recs[k].backup
      ensures (b, k) in t.acked <==> s.recs[k].backup[b].log == s.recs[k].hist + [id]
    {
      Known(s, id, k);
      IsHolder(s, id, k);
      assert BackupOk(s, k, b);
    }
    if forall k, b | k in t.wset && k in s.recs && b in s.recs[k].backup :: (b, k) in t.acked {
      assert LogDone(s, PutTxn(s, id, t.(phase := Installing)), id);
    }
  }

  /** An install can always go on until the record is free. */
  lemma InstallNeverStuck(run: seq<State>, i: nat, id: nat, k: Key)
    requires Run(run) && i < |run| && On(run[i], id, Installing, k)
    ensures (exists s' :: StoreFlag(run[i], s', id, k) || StoreWord(run[i], s', id, k) || StoreSeq(run[i], s', id, k) || StoreUnlock(run[i], s', id, k))
            <==> Holds(run[i].txns[id], k)
  {
    var s := run[i];
    RunInv(run, i);
    Known(s, id, k);
    if Holds(s.txns[id], k) {
      IsHolder(s, id, k);
      assert TxnOk(s, id);
      var s' := InstallStep(s, id, k);
    }
  }

  lemma InstallStep(s: State, id: nat, k: Key) returns (s': State)
    requires Inv(s) && On(s, id, Installing, k) && Holds(s.txns[id], k) && HasHolder(s, k) && Holder(s, k) == id
    ensures StoreFlag(s, s', id, k) || StoreWord(s, s', id, k) || StoreSeq(s, s', id, k) || StoreUnlock(s, s', id, k)
  {
    Known(s, id, k);
    var t, rec := s.txns[id], s.recs[k];
    var w := t.wset[k];
    match w.stage
    case Verified => s' := PutBoth(s, id, SetStage(t, k, Flagged(rec.seqno, 0)), k, rec.(seqno := CONFLICT_WRITE_FLAG));
    case Stored => s' := PutBoth(s, id, SetStage(t, k, Unlocked), k, rec.(lock := 0));
    case Flagged(last, n) =>
      if n < |w.val| {
        s' := PutBoth(s, id, SetStage(t, k, Flagged(last, n + 1)), k, rec.(words := rec.words[n := w.val[n]]));
      } else {
        s' := PutBoth(s, id, SetStage(t, k, Stored), k, rec.(seqno := last + 2, hist := rec.hist + [id]));
      }
  }

  /** A transaction that holds nothing any more can finish, and one that aborts can release everything
      and end. */
  lemma EndsExactlyWhen(run: seq<State>, i: nat, id: nat)
    requires Run(run) && i < |run| && id in run[i].txns
    ensures In(run[i], id, Installing) ==>
              ((exists s' :: Finish(run[i], s', id)) <==> forall k | k in run[i].txns[id].wset :: !Holds(run[i].txns[id], k))
    ensures In(run[i], id, Aborting) ==> ((exists s', k :: Release(run[i], s', id, k)) <==> !exists s' :: Die(run[i], s', id))
  {
    var s := run[i];
    RunInv(run, i);
    assert TxnOk(s, id);
    var t := s.txns[id];
    if In(s, id, Installing) && AllUnlocked(t) {
      assert Finish(s, PutTxn(s, id, t.(phase := Done)), id);
    }
    if In(s, id, Aborting) {
      if AllUnlocked(t) {
        assert Die(s, PutTxn(s, id, t.(phase := Dead)), id);
      } else {
        var k :| k in t.wset && t.wset[k].stage != Unlocked;
        var rec := s.recs[k];
        assert Release(s, PutBoth(s, id, SetStage(t, k, Unlocked), k, if rec.lock == t.cor then rec.(lock := 0) else rec), id, k);
      }
    }
  }
}
