/** A read that copies words before they are stored can pass its recheck and still return stale bytes.

    Between check_read and the load of the slot's timestamp, four writers go through the record. The
    last of them reuses the slot that check_read chose; the reader loads the new timestamp, copies the
    old bytes before they are overwritten, and finds nothing wrong when it checks again. */
module MvccStaleRead {
  import opened Mvcc
  import opened MvccSafety
  import opened MvccTheorems

  ghost predicate Reach(s: State) {
    exists run :: Run(run) && run[|run| - 1] == s
  }

  lemma ReachInit(s: State)
    requires Init(s)
    ensures Reach(s)
  {
    assert Run([s]);
  }

  lemma Do(s: State, s': State, step: Step)
    requires Reach(s) && NextBy(s, s', step)
    ensures Reach(s')
  {
    var run :| Run(run) && run[|run| - 1] == s;
    var longer := run + [s'];
    forall i | 0 <= i < |longer| - 1 ensures StepAt(longer, i) {
      assert i < |run| - 1 ==> StepAt(run, i);
    }
    assert Run(longer);
  }

  /** One record, one word. */
  const K: Key := 0

  ghost predicate Ready(s: State, c: Cor) {
    && Reach(s) && K in s.recs && c in s.clock
    && (forall x | x in s.txns && s.txns[x].cor == c :: s.txns[x].status != Active)
    && Timestamp(s.clock[c] + 1, c) !in s.txns
    && var rec := s.recs[K];
    && rec.lock == 0 && rec.rts == 0 && |rec.wts| == VERSION_NUM == |rec.data|
    && (forall i | 0 <= i < VERSION_NUM :: |rec.data[i]| == 1 && rec.wts[i] < Timestamp(s.clock[c] + 1, c))
    && rec.wts[0] != 0
  }

  lemma MayWrite(rec: Record, t: nat)
    requires |rec.wts| == VERSION_NUM && rec.rts <= t && rec.wts[0] != 0 && forall i | 0 <= i < VERSION_NUM :: rec.wts[i] < t
    ensures CheckWrite(rec, t) == 0 && MaxWts(rec.wts) <= t && 0 <= MaxSlot(rec.wts) < VERSION_NUM && 0 <= MinSlot(rec.wts) < VERSION_NUM
  {
  }

  /** The attempt of a lone writer, up to its commit. */
  function Writer(c: Cor, op: Op): Attempt { Attempt(c, Active, op, map[], map[]) }

  lemma PutTwice(s: State, t: nat, a: Attempt, b: Attempt)
    ensures PutTxn(PutTxn(s, t, a), t, b) == PutTxn(s, t, b)
  {
    assert s.txns[t := a][t := b] == s.txns[t := b];
  }

  /** A writer begins and passes the checks that come before the lock. */
  lemma Approach(s: State, c: Cor) returns (s': State, t: nat)
    requires Ready(s, c)
    ensures Reach(s') && t == Timestamp(s.clock[c] + 1, c)
    ensures s' == s.(txns := s.txns[t := Writer(c, LockSeen(K))], clock := s.clock[c := s.clock[c] + 1])
  {
    t := Timestamp(s.clock[c] + 1, c);
    MayWrite(s.recs[K], t);
    var s0 := s.(clock := s.clock[c := s.clock[c] + 1]);
    var s1 := PutTxn(s0, t, Writer(c, NoOp));
    Do(s, s1, BeginStep(c, t));
    var s2 := PutTxn(s0, t, Writer(c, WriteChecked(K)));
    PutTwice(s0, t, Writer(c, NoOp), Writer(c, WriteChecked(K)));
    Do(s1, s2, LockCheckStep(t, K));
    s' := PutTxn(s0, t, Writer(c, LockSeen(K)));
    PutTwice(s0, t, Writer(c, WriteChecked(K)), Writer(c, LockSeen(K)));
    Do(s2, s', LockLoadStep(t, K));
  }

  function FirstEntry(rec: Record): WriteRec
    requires 0 <= MaxSlot(rec.wts) < |rec.data| && 0 <= MinSlot(rec.wts)
  {
    var cur := rec.data[MaxSlot(rec.wts)];
    WriteRec(MinSlot(rec.wts), MaxWts(rec.wts), cur, cur, Held)
  }

  /** ... takes the lock, and passes the check under it. */
  lemma TakeLock(s: State, c: Cor, t: nat) returns (s': State)
    requires Reach(s) && K in s.recs && t in s.txns && s.txns[t] == Writer(c, LockSeen(K))
    requires s.recs[K].lock == 0 && CheckWrite(s.recs[K], t) == 0
    requires 0 <= MaxSlot(s.recs[K].wts) < |s.recs[K].data| && 0 <= MinSlot(s.recs[K].wts)
    ensures Reach(s')
    ensures s' == PutBoth(s, t, Writer(c, NoOp).(wset := map[K := FirstEntry(s.recs[K])]), K, s.recs[K].(lock := t))
  {
    var rec := s.recs[K];
    var s0 := s.(recs := s.recs[K := rec.(lock := t)]);
    var s1 := PutTxn(s0, t, Writer(c, Locked(K)));
    Do(s, s1, LockCasStep(t, K));
    var a := Writer(c, NoOp).(wset := map[K := FirstEntry(rec)]);
    assert s1.txns[t].wset[K := FirstEntry(rec)] == map[K := FirstEntry(rec)];
    PutTwice(s0, t, Writer(c, Locked(K)), a);
    s' := PutTxn(s0, t, a);
    Do(s1, s', LockRecheckStep(t, K));
  }

  /** ... and on until its timestamp is in the slot and its data is not. */
  lemma HalfWrite(s: State, c: Cor, v: int) returns (s': State, t: nat)
    requires Ready(s, c)
    ensures Reach(s') && t == Timestamp(s.clock[c] + 1, c)
    ensures s'.init == s.init && s'.clock == s.clock[c := s.clock[c] + 1]
    ensures var pos := MinSlot(s.recs[K].wts);
            s'.recs == s.recs[K := s.recs[K].(lock := t, wts := s.recs[K].wts[pos := t])]
    ensures t in s'.txns && s'.txns == s.txns[t := s'.txns[t]]
    ensures s'.txns[t].cor == c && s'.txns[t].status == Committed && s'.txns[t].op == NoOp && s'.txns[t].rset == map[]
    ensures s'.txns[t].wset.Keys == {K} && s'.txns[t].wset[K].stage == Storing(0) && s'.txns[t].wset[K].val == [v]
    ensures s'.txns[t].wset[K].pos == MinSlot(s.recs[K].wts)
  {
    var s4;
    s4, t := Approach(s, c);
    var s6 := LockAndSeal(s, s4, c, t, v);
    s' := Stamped(s6, t);
    HalfWriteState(s, s4, s6, s', c, t, v);
  }

  /** A writer that has approached takes the lock, and commits with the value v. */
  lemma LockAndSeal(s: State, s4: State, c: Cor, t: nat, v: int) returns (s6: State)
    requires Ready(s, c) && Reach(s4) && t == Timestamp(s.clock[c] + 1, c)
    requires s4 == s.(txns := s.txns[t := Writer(c, LockSeen(K))], clock := s.clock[c := s.clock[c] + 1])
    ensures Reach(s6) && 0 <= MaxSlot(s.recs[K].wts) < |s.recs[K].data| && 0 <= MinSlot(s.recs[K].wts) < VERSION_NUM
    ensures s6 == s4.(txns := s4.txns[t := Sealed(s.recs[K], c, v)], recs := s.recs[K := s.recs[K].(lock := t)])
  {
    MayWrite(s.recs[K], t);
    var s5 := TakeLock(s4, c, t);
    s6 := Seals(s5, t, v);
    PutTwice(s4.(recs := s5.recs), t, s5.txns[t], s6.txns[t]);
  }

  /** The attempt of a lone writer that has committed and not yet written. */
  function Sealed(rec: Record, c: Cor, v: int): Attempt
    requires 0 <= MaxSlot(rec.wts) < |rec.data| && 0 <= MinSlot(rec.wts)
  {
    Writer(c, NoOp).(status := Committed, wset := map[K := FirstEntry(rec).(val := [v])])
  }

  lemma HalfWriteState(s: State, s4: State, s6: State, s': State, c: Cor, t: nat, v: int)
    requires K in s.recs && c in s.clock && |s.recs[K].wts| == VERSION_NUM == |s.recs[K].data|
    requires 0 <= MaxSlot(s.recs[K].wts) && 0 <= MinSlot(s.recs[K].wts)
    requires s4 == s.(txns := s.txns[t := Writer(c, LockSeen(K))], clock := s.clock[c := s.clock[c] + 1])
    requires s6 == s4.(txns := s4.txns[t := Sealed(s.recs[K], c, v)], recs := s.recs[K := s.recs[K].(lock := t)])
    requires s' == PutBoth(s6, t, SetStage(s6.txns[t], K, Storing(0)), K, s6.recs[K].(wts := s6.recs[K].wts[MinSlot(s.recs[K].wts) := t]))
    ensures s'.init == s.init && s'.clock == s.clock[c := s.clock[c] + 1]
    ensures s'.recs == s.recs[K := s.recs[K].(lock := t, wts := s.recs[K].wts[MinSlot(s.recs[K].wts) := t])]
    ensures t in s'.txns && s'.txns == s.txns[t := s'.txns[t]]
    ensures s'.txns[t].cor == c && s'.txns[t].status == Committed && s'.txns[t].op == NoOp && s'.txns[t].rset == map[]
    ensures s'.txns[t].wset.Keys == {K} && s'.txns[t].wset[K].stage == Storing(0) && s'.txns[t].wset[K].val == [v]
    ensures s'.txns[t].wset[K].pos == MinSlot(s.recs[K].wts)
  {
  }

  lemma Seals(s: State, t: nat, v: int) returns (s': State)
    requires Reach(s) && t in s.txns && s.txns[t].status == Active && s.txns[t].op == NoOp
    requires s.txns[t].wset.Keys == {K} && |s.txns[t].wset[K].baseVal| == 1
    ensures Reach(s')
    ensures s' == PutTxn(s, t, s.txns[t].(status := Committed, wset := map[K := s.txns[t].wset[K].(val := [v])]))
  {
    assert Seal(s.txns[t].wset, map[K := [v]]) == map[K := s.txns[t].wset[K].(val := [v])];
    s' := PutTxn(s, t, s.txns[t].(status := Committed, wset := map[K := s.txns[t].wset[K].(val := [v])]));
    Do(s, s', CommitStep(t, map[K := [v]]));
  }

  /** A committed writer stores its timestamp into the slot. */
  lemma Stamped(s: State, t: nat) returns (s': State)
    requires Reach(s) && K in s.recs && t in s.txns && s.txns[t].status == Committed && s.txns[t].wset.Keys == {K}
    requires s.txns[t].wset[K].stage == Held && s.txns[t].wset[K].pos < |s.recs[K].wts|
    ensures Reach(s')
    ensures s' == PutBoth(s, t, SetStage(s.txns[t], K, Storing(0)), K, s.recs[K].(wts := s.recs[K].wts[s.txns[t].wset[K].pos := t]))
  {
    s' := PutBoth(s, t, SetStage(s.txns[t], K, Storing(0)), K, s.recs[K].(wts := s.recs[K].wts[s.txns[t].wset[K].pos := t]));
    Do(s, s', StoreWtsStep(t, K));
  }

  /** ... and then finishes. */
  lemma RestOfWrite(s: State, t: nat) returns (s': State)
    requires Reach(s) && K in s.recs && t in s.txns && s.txns[t].status == Committed && s.txns[t].wset.Keys == {K}
    requires var wr := s.txns[t].wset[K];
             wr.stage == Storing(0) && |wr.val| == 1 && wr.pos < |s.recs[K].data| && |s.recs[K].data[wr.pos]| == 1
    ensures Reach(s') && s'.init == s.init && s'.clock == s.clock
    ensures var wr := s.txns[t].wset[K];
            s'.recs == s.recs[K := s.recs[K].(lock := 0, data := s.recs[K].data[wr.pos := wr.val])]
    ensures s'.txns == s.txns[t := SetStage(s.txns[t], K, Unlocked)]
  {
    var a, rec := s.txns[t], s.recs[K];
    var wr := a.wset[K];
    var word := rec.data[wr.pos][0 := wr.val[0]];
    assert word == wr.val;
    var s1 := PutBoth(s, t, SetStage(a, K, Storing(1)), K, rec.(data := rec.data[wr.pos := word]));
    Do(s, s1, StoreWordStep(t, K));
    s' := PutBoth(s1, t, SetStage(s1.txns[t], K, Unlocked), K, s1.recs[K].(lock := 0));
    Do(s1, s', StoreDoneStep(t, K));
    assert SetStage(SetStage(a, K, Storing(1)), K, Unlocked) == SetStage(a, K, Unlocked);
  }

  lemma FullWrite(s: State, c: Cor, v: int) returns (s': State, t: nat)
    requires Ready(s, c)
    ensures Reach(s') && t == Timestamp(s.clock[c] + 1, c)
    ensures s'.init == s.init && s'.clock == s.clock[c := s.clock[c] + 1]
    ensures var pos := MinSlot(s.recs[K].wts);
            s'.recs == s.recs[K := s.recs[K].(wts := s.recs[K].wts[pos := t], data := s.recs[K].data[pos := [v]])]
    ensures t in s'.txns && s'.txns == s.txns[t := s'.txns[t]] && s'.txns[t].cor == c && s'.txns[t].status == Committed
  {
    var half;
    half, t := HalfWrite(s, c, v);
    s' := RestOfWrite(half, t);
  }

  function Worker(id: nat): Cor { Cor(0, 0, id) }

  ghost predicate Opened(s: State, written: nat) {
    && Reach(s) && K in s.recs
    && (forall i | written < i <= 4 :: Worker(i) in s.clock && s.clock[Worker(i)] == 0)
    && 1030 in s.txns && s.txns[1030] == Attempt(Worker(5), Active, Checked(K, 0, INIT_WTS), map[], map[])
    && (forall t | t in s.txns && t != 1030 :: 1026 <= t < 1026 + written && s.txns[t].status != Active)
    && var rec := s.recs[K];
    && rec.lock == 0 && rec.rts == 0 && |rec.wts| == VERSION_NUM == |rec.data|
    && (forall i | 0 <= i < VERSION_NUM :: |rec.data[i]| == 1)
    && rec.data[0] == [7]
    && rec.wts[0] == INIT_WTS
    && forall i | 1 <= i < VERSION_NUM :: rec.wts[i] == if i <= written then 1025 + i else 0
  }

  lemma OnlyInitialVersion(rec: Record, t: nat)
    requires rec.lock == 0 && |rec.wts| == VERSION_NUM && rec.wts[0] == INIT_WTS < t
    requires forall i | 1 <= i < VERSION_NUM :: rec.wts[i] == 0
    ensures CheckRead(rec, t) == 0
  {
    assert 0 < rec.wts[0] < t;
  }

  lemma Loaded() returns (s: State)
    ensures Reach(s) && s.txns == map[] && K in s.recs && s.recs[K] == Record(0, 0, [INIT_WTS, 0, 0, 0], [[7], [0], [0], [0]])
    ensures forall i | 1 <= i <= 5 :: Worker(i) in s.clock && s.clock[Worker(i)] == 0
  {
    var rec := Record(0, 0, [INIT_WTS, 0, 0, 0], [[7], [0], [0], [0]]);
    s := State(map[K := [7]], map[K := rec], map[],
               map[Worker(1) := 0, Worker(2) := 0, Worker(3) := 0, Worker(4) := 0, Worker(5) := 0]);
    ReachInit(s);
  }

  /** The reader has chosen slot 0, the initial version. */
  lemma ReaderChooses() returns (s: State)
    ensures Opened(s, 0)
  {
    var s0 := Loaded();
    var s1 := ReaderBegins(s0);
    OnlyInitialVersion(s1.recs[K], 1030);
    s := ReaderChecks(s1, 1030);
  }

  lemma ReaderBegins(s0: State) returns (s1: State)
    requires Reach(s0) && s0.txns == map[] && Worker(5) in s0.clock && s0.clock[Worker(5)] == 0
    ensures Reach(s1) && s1 == s0.(txns := map[1030 := Writer(Worker(5), NoOp)], clock := s0.clock[Worker(5) := 1])
  {
    s1 := s0.(txns := map[1030 := Writer(Worker(5), NoOp)], clock := s0.clock[Worker(5) := 1]);
    assert Slot(Worker(5)) == 6;
    assert s1.txns == s0.txns[1030 := Writer(Worker(5), NoOp)];
    Do(s0, s1, BeginStep(Worker(5), 1030));
  }

  lemma ReaderChecks(s1: State, t: nat) returns (s: State)
    requires Reach(s1) && K in s1.recs && t in s1.txns && s1.txns[t] == Writer(Worker(5), NoOp)
    requires CheckRead(s1.recs[K], t) == 0 && s1.recs[K].wts[0] == INIT_WTS
    ensures Reach(s) && s == PutTxn(s1, t, Writer(Worker(5), Checked(K, 0, INIT_WTS)))
  {
    s := PutTxn(s1, t, Writer(Worker(5), Checked(K, 0, INIT_WTS)));
    Do(s1, s, ReadCheckStep(t, K));
  }

  /** Writers 1 to 3 fill the three empty slots. */
  lemma OneMoreWriter(s: State, written: nat) returns (s': State)
    requires Opened(s, written) && written < 3
    ensures Opened(s', written + 1)
  {
    var t;
    FirstEmptySlot(s.recs[K].wts, written);
    s', t := FullWrite(s, Worker(written + 1), 0);
    OneMoreWritten(s, s', written, t);
  }

  lemma FirstEmptySlot(wts: seq<nat>, written: nat)
    requires |wts| == VERSION_NUM && written < 3 && wts[0] == INIT_WTS
    requires forall i | 1 <= i < VERSION_NUM :: wts[i] == if i <= written then 1025 + i else 0
    ensures MinSlot(wts) == written + 1
  {
    assert wts[written + 1] == 0;
  }

  lemma OneMoreWritten(s: State, s': State, written: nat, t: nat)
    requires Opened(s, written) && written < 3 && Reach(s') && t == 1026 + written
    requires s'.clock == s.clock[Worker(written + 1) := s.clock[Worker(written + 1)] + 1]
    requires s'.recs == s.recs[K := s.recs[K].(wts := s.recs[K].wts[written + 1 := t], data := s.recs[K].data[written + 1 := [0]])]
    requires t in s'.txns && s'.txns == s.txns[t := s'.txns[t]] && s'.txns[t].status != Active
    ensures Opened(s', written + 1)
  {
  }

  /** The reader finishes with the timestamp of version 1029 and the bytes of the initial version. */
  lemma StaleReadIsReachable() returns (s: State, t: nat, w: nat)
    ensures Reach(s)
    ensures t in s.txns && K in s.txns[t].rset && !s.txns[t].rset[K].whole
    ensures s.txns[t].rset[K].ver == w && CommittedWriter(s, w, K)
    ensures s.txns[t].rset[K].val == [7] && ValOf(s, w, K) == [9]
  {
    var s0 := ReaderChooses();
    var s1 := OneMoreWriter(s0, 0);
    var s2 := OneMoreWriter(s1, 1);
    var s3 := OneMoreWriter(s2, 2);
    var s4;
    s4, w := FourthWriter(s3);
    t := 1030;
    s := FinishStaleRead(s4, t, w);
  }

  /** The fourth writer reuses the slot the reader chose, and stops before storing its data. */
  lemma FourthWriter(s: State) returns (s': State, w: nat)
    requires Opened(s, 3)
    ensures MidOverwrite(s', 1030, w)
  {
    var wts := s.recs[K].wts;
    assert wts[0] == 1 && wts[1] == 1026 && wts[2] == 1027 && wts[3] == 1028;
    assert MinSlot(wts) == 0;
    s', w := HalfWrite(s, Worker(4), 9);
  }

  ghost predicate MidOverwrite(s: State, t: nat, w: nat) {
    && Reach(s) && t == 1030 && w == 1029 && K in s.recs && t in s.txns && w in s.txns
    && s.txns[t] == Writer(Worker(5), Checked(K, 0, INIT_WTS))
    && var rec := s.recs[K];
    && rec.lock == w && rec.rts == 0 && |rec.data| == VERSION_NUM && rec.data[0] == [7]
    && |rec.wts| == VERSION_NUM && rec.wts[0] == 1029 && rec.wts[1] == 1026 && rec.wts[2] == 1027 && rec.wts[3] == 1028
    && var b := s.txns[w];
    && b.status == Committed && b.wset.Keys == {K}
    && b.wset[K].stage == Storing(0) && b.wset[K].val == [9] && b.wset[K].pos == 0
  }

  lemma FinishStaleRead(s6: State, t: nat, w: nat) returns (s: State)
    requires MidOverwrite(s6, t, w)
    ensures Reach(s) && t in s.txns && K in s.txns[t].rset && s.txns[t].rset[K] == ReadRec(w, INIT_WTS, [7], false)
    ensures CommittedWriter(s, w, K) && ValOf(s, w, K) == [9]
  {
    var s7 := PutBoth(s6, t, Writer(Worker(5), Bumped(K, 0, INIT_WTS)), K, s6.recs[K].(rts := t));
    Do(s6, s7, ReadBumpStep(t, K));
    var s9 := CopyStale(s7, t, w);
    var s10 := RestOfWrite(s9, w);
    s := PassRecheck(s10, t, w);
  }

  lemma CopyStale(s7: State, t: nat, w: nat) returns (s9: State)
    requires Reach(s7) && K in s7.recs && t in s7.txns && s7.txns[t] == Writer(Worker(5), Bumped(K, 0, INIT_WTS))
    requires |s7.recs[K].wts| == VERSION_NUM == |s7.recs[K].data| && s7.recs[K].wts[0] == w && s7.recs[K].data[0] == [7]
    requires !WordStored(s7, w, K, 0)
    ensures Reach(s9) && s9 == PutTxn(s7, t, Writer(Worker(5), Copying(K, 0, INIT_WTS, w, [7], false)))
  {
    var s8 := PutTxn(s7, t, Writer(Worker(5), Copying(K, 0, INIT_WTS, w, [], true)));
    Do(s7, s8, ReadLoadStep(t, K));
    s9 := PutTxn(s7, t, Writer(Worker(5), Copying(K, 0, INIT_WTS, w, [7], false)));
    PutTwice(s7, t, s8.txns[t], s9.txns[t]);
    assert [] + [7] == [7];
    Do(s8, s9, ReadWordStep(t, K));
  }

  lemma PassRecheck(s10: State, t: nat, w: nat) returns (s: State)
    requires Reach(s10) && K in s10.recs && t in s10.txns && s10.txns[t] == Writer(Worker(5), Copying(K, 0, INIT_WTS, w, [7], false))
    requires var rec := s10.recs[K];
             && rec.lock == 0 && |rec.data| == VERSION_NUM && |rec.data[0]| == 1
             && |rec.wts| == VERSION_NUM && rec.wts[0] == w == 1029 && rec.wts[1] == 1026 && rec.wts[2] == 1027 && rec.wts[3] == 1028
    requires t == 1030
    ensures Reach(s) && s == PutTxn(s10, t, Writer(Worker(5), NoOp).(rset := map[K := ReadRec(w, INIT_WTS, [7], false)]))
  {
    s := PutTxn(s10, t, Writer(Worker(5), NoOp).(rset := map[K := ReadRec(w, INIT_WTS, [7], false)]));
    assert s10.txns[t].rset[K := ReadRec(w, INIT_WTS, [7], false)] == map[K := ReadRec(w, INIT_WTS, [7], false)];
    Do(s10, s, ReadRecheckStep(t, K));
  }
}
