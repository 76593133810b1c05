/** When the multiversion protocol lets a transaction go on, in every run: in terms of who holds the
    record and which versions it has. */
module MvccProgress {
  import opened Mvcc
  import opened MvccSafety

  ghost predicate Free(s: State, k: Key) {
    forall x | x in s.txns :: !Holds(s.txns[x], k)
  }

  lemma FreeIsUnlocked(s: State, k: Key)
    requires Inv(s) && k in s.recs
    ensures s.recs[k].lock == 0 <==> Free(s, k)
    ensures forall x | x in s.txns && Holds(s.txns[x], k) :: s.recs[k].lock == x && 0 < x
  {
    assert KeyInv(s, k);
    forall x | x in s.txns && Holds(s.txns[x], k) ensures s.recs[k].lock == x && 0 < x { Known(s, x, k); }
  }

  /** A coroutine can begin a transaction exactly if it is not running one, and any running transaction can
      give up unless it is in the middle of taking a lock. */
  lemma BeginsExactlyWhenIdle(run: seq<State>, i: nat, c: Cor)
    requires Run(run) && i < |run| && c in run[i].clock
    ensures (exists s', t :: Begin(run[i], s', c, t)) <==> forall x | x in run[i].txns && run[i].txns[x].cor == c :: run[i].txns[x].status != Active
    ensures forall t | t in run[i].txns && run[i].txns[t].status == Active && !run[i].txns[t].op.Locked? :: exists s' :: Abort(run[i], s', t)
  {
    var s := run[i];
    if forall x | x in s.txns && s.txns[x].cor == c :: s.txns[x].status != Active {
      var n := s.clock[c] + 1;
      var t := Timestamp(n, c);
      assert Begin(s, s.(txns := s.txns[t := Attempt(c, Active, NoOp, map[], map[])], clock := s.clock[c := n]), c, t);
    }
    forall t | t in s.txns && s.txns[t].status == Active && !s.txns[t].op.Locked? ensures exists s' :: Abort(s, s', t) {
      assert Abort(s, PutTxn(s, t, s.txns[t].(op := NoOp, status := Aborted)), t);
    }
  }

  /** A read starts exactly if nobody earlier holds the record and there is an earlier version. */
  lemma ReadStartsExactlyWhen(run: seq<State>, i: nat, t: nat, k: Key)
    requires Run(run) && i < |run| && Running(run[i], t, k)
    requires run[i].txns[t].op == NoOp && k !in run[i].txns[t].rset && k !in run[i].txns[t].wset
    ensures (exists s' :: ReadCheck(run[i], s', t, k)) <==>
              && (forall x | x in run[i].txns && Holds(run[i].txns[x], k) :: t <= x)
              && exists j :: 0 <= j < |run[i].recs[k].wts| && 0 < run[i].recs[k].wts[j] < t
  {
    var s := run[i];
    RunInv(run, i);
    FreeIsUnlocked(s, k);
    assert KeyInv(s, k);
    var pos := CheckRead(s.recs[k], t);
    if 0 <= pos {
      var s' := PutTxn(s, t, s.txns[t].(op := Checked(k, pos, s.recs[k].wts[pos])));
      assert ReadCheck(s, s', t, k);
    }
  }

  /** A read whose bytes are copied is accepted exactly if nobody earlier holds the record and the slot
      has the timestamp it was loaded with, which is the largest below the reader's. */
  lemma ReadPassesExactlyWhen(run: seq<State>, i: nat, t: nat, k: Key)
    requires Run(run) && i < |run| && Running(run[i], t, k) && run[i].txns[t].op.Copying? && run[i].txns[t].op.k == k
    requires var op := run[i].txns[t].op; op.pos < |run[i].recs[k].data| && |op.buf| == |run[i].recs[k].data[op.pos]|
    ensures (exists s' :: ReadRecheck(run[i], s', t, k)) <==>
              var op, wts := run[i].txns[t].op, run[i].recs[k].wts;
              && (forall x | x in run[i].txns && Holds(run[i].txns[x], k) :: t <= x)
              && op.pos < |wts| && wts[op.pos] == op.b && 0 < op.b < t && forall j | 0 <= j < |wts| && wts[j] < t :: wts[j] <= op.b
  {
    var s := run[i];
    RunInv(run, i);
    FreeIsUnlocked(s, k);
    assert KeyInv(s, k);
    var a := s.txns[t];
    if CheckRead(s.recs[k], t) == a.op.pos && s.recs[k].wts[a.op.pos] == a.op.b {
      var s' := PutTxn(s, t, a.(op := NoOp, rset := a.rset[k := ReadRec(a.op.b, a.op.w, a.op.buf, a.op.whole)]));
      assert ReadRecheck(s, s', t, k);
    }
  }

  /** The compare-and-swap of a writer succeeds exactly if nobody holds the record. */
  lemma LocksExactlyWhenFree(run: seq<State>, i: nat, t: nat, k: Key)
    requires Run(run) && i < |run| && Running(run[i], t, k) && run[i].txns[t].op == LockSeen(k)
    ensures (exists s' :: LockCas(run[i], s', t, k)) <==> Free(run[i], k)
  {
    var s := run[i];
    RunInv(run, i);
    FreeIsUnlocked(s, k);
    if s.recs[k].lock == 0 {
      assert LockCas(s, PutBoth(s, t, s.txns[t].(op := Locked(k)), k, s.recs[k].(lock := t)), t, k);
    }
  }

  /** Before that, a writer goes on exactly if nothing later was read or written, and then exactly if
      nobody later holds the record. */
  lemma ApproachesExactlyWhen(run: seq<State>, i: nat, t: nat, k: Key)
    requires Run(run) && i < |run| && Running(run[i], t, k)
    ensures run[i].txns[t].op == NoOp && k !in run[i].txns[t].wset ==>
              ((exists s' :: LockCheck(run[i], s', t, k)) <==>
                 run[i].recs[k].rts <= t && forall j | 0 <= j < |run[i].recs[k].wts| :: run[i].recs[k].wts[j] <= t)
    ensures run[i].txns[t].op == WriteChecked(k) ==>
              ((exists s' :: LockLoad(run[i], s', t, k)) <==> forall x | x in run[i].txns && Holds(run[i].txns[x], k) :: x <= t)
  {
    var s := run[i];
    RunInv(run, i);
    FreeIsUnlocked(s, k);
    assert KeyInv(s, k);
    if s.txns[t].op == NoOp && k !in s.txns[t].wset && CheckWrite(s.recs[k], t) == 0 {
      assert LockCheck(s, PutTxn(s, t, s.txns[t].(op := WriteChecked(k))), t, k);
    }
    if s.txns[t].op == WriteChecked(k) && s.recs[k].lock <= t {
      assert LockLoad(s, PutTxn(s, t, s.txns[t].(op := LockSeen(k))), t, k);
    }
  }

  /** Under the lock a writer is granted the record exactly if nothing later was read or written in the
      meantime, and refused, with a timestamp that was, in all other cases. */
  lemma GrantedExactlyWhen(run: seq<State>, i: nat, t: nat, k: Key)
    requires Run(run) && i < |run| && Running(run[i], t, k) && run[i].txns[t].op == Locked(k)
    ensures var rec := run[i].recs[k];
            var passes := rec.rts <= t && forall j | 0 <= j < |rec.wts| :: rec.wts[j] <= t;
            && ((exists s' :: LockRecheck(run[i], s', t, k)) <==> passes)
            && ((exists s', blocker :: LockRefuse(run[i], s', t, k, blocker)) <==> !passes)
  {
    var s := run[i];
    RunInv(run, i);
    assert KeyInv(s, k) && Retained(s, INIT_WTS, k);
    var rec := s.recs[k];
    var a := s.txns[t];
    if rec.rts <= t && MaxWts(rec.wts) <= t {
      var cur := rec.data[MaxSlot(rec.wts)];
      var s' := PutTxn(s, t, a.(op := NoOp, wset := a.wset[k := WriteRec(MinSlot(rec.wts), MaxWts(rec.wts), cur, cur, Held)]));
      assert LockRecheck(s, s', t, k);
    } else {
      var blocker := if t < rec.rts then rec.rts else MaxWts(rec.wts);
      var s' := PutBoth(s, t, a.(op := NoOp, status := Aborted), k, rec.(lock := 0)).(clock := s.clock[a.cor := blocker / 1024]);
      assert LockRefuse(s, s', t, k, blocker);
    }
  }

  // ---------------------------------------------------------------------------------------------
  // Nothing gets stuck between its checks
  // ---------------------------------------------------------------------------------------------

  /** A read that has chosen its slot can always go on to its recheck. */
  lemma ReadNeverStuck(run: seq<State>, i: nat, t: nat, k: Key)
    requires Run(run) && i < |run| && t in run[i].txns && k in run[i].recs
    requires var op := run[i].txns[t].op; (op.Checked? || op.Bumped? || op.Copying?) && op.k == k
    ensures run[i].txns[t].op.Checked? ==> exists s' :: ReadBump(run[i], s', t, k)
    ensures run[i].txns[t].op.Bumped? ==> exists s' :: ReadLoad(run[i], s', t, k)
    ensures var op := run[i].txns[t].op;
            op.Copying? ==> op.pos < |run[i].recs[k].data| && ((exists s' :: ReadWord(run[i], s', t, k)) <==> |op.buf| != |run[i].recs[k].data[op.pos]|)
  {
    var s := run[i];
    RunInv(run, i);
    Known(s, t, k);
    var a, rec := s.txns[t], s.recs[k];
    match a.op
    case Checked(_, pos, w) => assert ReadBump(s, PutBoth(s, t, a.(op := Bumped(k, pos, w)), k, rec.(rts := Max(rec.rts, t))), t, k);
    case Bumped(_, pos, w) => assert ReadLoad(s, PutTxn(s, t, a.(op := Copying(k, pos, w, rec.wts[pos], [], true))), t, k);
    case Copying(_, pos, w, b, buf, whole) =>
      if |buf| < |rec.data[pos]| {
        var op' := a.op.(buf := buf + [rec.data[pos][|buf|]], whole := whole && WordStored(s, b, k, |buf|));
        assert ReadWord(s, PutTxn(s, t, a.(op := op')), t, k);
      }
  }

  /** A transaction that is not inside a handler can commit any values of the records' sizes. */
  lemma MayCommit(run: seq<State>, i: nat, t: nat, vals: map<Key, Value>)
    requires Run(run) && i < |run| && t in run[i].txns && run[i].txns[t].status == Active && run[i].txns[t].op == NoOp
    ensures (exists s' :: Commit(run[i], s', t, vals)) <==>
              vals.Keys == run[i].txns[t].wset.Keys && forall k | k in vals && k in run[i].init :: |vals[k]| == |run[i].init[k]|
  {
    var s := run[i];
    RunInv(run, i);
    assert TxnOk(s, t);
    forall k | k in s.txns[t].wset ensures k in s.init && |s.txns[t].wset[k].baseVal| == |s.init[k]| { Known(s, t, k); }
    if vals.Keys == s.txns[t].wset.Keys && forall k | k in vals && k in s.init :: |vals[k]| == |s.init[k]| {
      assert Commit(s, PutTxn(s, t, s.txns[t].(status := Committed, wset := Seal(s.txns[t].wset, vals))), t, vals);
    }
  }

  /** A committed transaction can always go on installing until its last record is free. */
  lemma InstallNeverStuck(run: seq<State>, i: nat, t: nat, k: Key)
    requires Run(run) && i < |run| && Installing(run[i], t, k)
    ensures (exists s' :: StoreWts(run[i], s', t, k) || StoreWord(run[i], s', t, k) || StoreDone(run[i], s', t, k))
            <==> Holds(run[i].txns[t], k)
  {
    var s := run[i];
    RunInv(run, i);
    Known(s, t, k);
    var a, rec := s.txns[t], s.recs[k];
    var wr := a.wset[k];
    match wr.stage
    case Held => assert StoreWts(s, PutBoth(s, t, SetStage(a, k, Storing(0)), k, rec.(wts := rec.wts[wr.pos := t])), t, k);
    case Unlocked => { }
    case Storing(n) =>
      if n < |wr.val| {
        assert StoreWord(s, PutBoth(s, t, SetStage(a, k, Storing(n + 1)), k,
                                    rec.(data := rec.data[wr.pos := rec.data[wr.pos][n := wr.val[n]]])), t, k);
      } else {
        assert StoreDone(s, PutBoth(s, t, SetStage(a, k, Unlocked), k, rec.(lock := 0)), t, k);
      }
  }

  /** ... and an aborted one releasing. */
  lemma ReleaseNeverStuck(run: seq<State>, i: nat, t: nat, k: Key)
    requires Run(run) && i < |run| && t in run[i].txns && run[i].txns[t].status == Aborted && k in run[i].recs
    ensures (exists s' :: Release(run[i], s', t, k)) <==> Holds(run[i].txns[t], k)
  {
    var s := run[i];
    RunInv(run, i);
    Known(s, t, k);
    if Holds(s.txns[t], k) {
      assert Release(s, PutBoth(s, t, SetStage(s.txns[t], k, Unlocked), k, s.recs[k].(lock := 0)), t, k);
    }
  }

  // ---------------------------------------------------------------------------------------------
  // Read timestamps
  // ---------------------------------------------------------------------------------------------

  ghost predicate RtsOk(s: State, k: Key)
    requires k in s.recs
  {
    s.recs[k].rts == 0 || s.recs[k].rts in s.txns
  }

  lemma StepKeepsRts(s: State, s': State, step: Step, k: Key)
    requires NextBy(s, s', step) && k in s.recs && k in s'.recs && RtsOk(s, k)
    ensures RtsOk(s', k)
  {
  }

  /** A record's read timestamp is that of a transaction, or 0. */
  lemma {:induction false} RtsIsATimestamp(run: seq<State>, i: nat, k: Key)
    requires Run(run) && i < |run| && k in run[i].recs
    ensures RtsOk(run[i], k)
  {
    if i == 0 {
      assert InitRecord(run[0].recs[k], run[0].init[k]);
    } else {
      assert StepAt(run, i - 1);
      RunInv(run, i - 1);
      RunInv(run, i);
      var step :| NextBy(run[i - 1], run[i], step);
      InitKept(run[i - 1], run[i], step);
      RtsIsATimestamp(run, i - 1, k);
      StepKeepsRts(run[i - 1], run[i], step, k);
    }
  }

  lemma InitKept(s: State, s': State, step: Step)
    requires NextBy(s, s', step)
    ensures s'.init == s.init
  {
  }

  // ---------------------------------------------------------------------------------------------
  // Timestamps
  // ---------------------------------------------------------------------------------------------

  /** A timestamp tells its count and its coroutine. */
  lemma WhoseTimestamp(count: nat, c: Cor)
    requires ValidCor(c)
    ensures var t := Timestamp(count, c);
            var place := t % 1024 - 2;
            t / 1024 == count && 0 <= place && c == Cor(place / 80, place % 80 / 10, place % 10 + 1)
  {
    TimestampParts(count, c);
    var place := Slot(c) - 2;
    assert place == c.node * 80 + (c.worker * 10 + (c.id - 1));
  }
}
