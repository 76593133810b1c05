/** Optimistic concurrency control with primary-backup replication.

    A transaction reads values with their sequence numbers, locks its write set, validates its read
    set, has its writes applied at every backup, and then installs them in place. The state machine
    interleaves these at the granularity of single memory accesses: a value is copied and stored word
    by word, and validation loads the sequence number and the lock separately. */
module Occ {
  import S = Serializability

  type Key = S.Key
  type Value = S.Value
  type Node = nat

  /** The sequence number that marks a record whose value is being overwritten. */
  const CONFLICT_WRITE_FLAG: nat := 73

  // ---------------------------------------------------------------------------------------------
  // Records
  // ---------------------------------------------------------------------------------------------

  /** A backup's copy of a record; log lists the transactions whose write it applied, in order. */
  datatype Backup = Backup(val: Value, log: seq<nat>)

  /** A record on its primary and its copies on the backups of its partition. hist lists the
      transactions that installed a value, in order; it is not part of the program's memory. */
  datatype Record = Record(lock: nat, seqno: nat, words: Value, hist: seq<nat>, backup: map<Node, Backup>)

  // ---------------------------------------------------------------------------------------------
  // Transactions
  // ---------------------------------------------------------------------------------------------

  /** How far the validation of a read has come. clean says that the sequence number was still the
      one read when the lock was found free. */
  datatype Check = Unchecked | SeqMatched | Valid(clean: bool)

  datatype ReadItem = ReadItem(k: Key, seqno: nat, val: Value, check: Check)

  datatype Stage = Free | Swapped | Verified | Flagged(last: nat, words: nat) | Stored | Unlocked

  datatype WriteItem = WriteItem(seqno: nat, base: Value, val: Value, stage: Stage)

  datatype Phase = Executing | Locking | Validating | Logging | Installing | Done | Aborting | Dead

  /** Inside local_get_op: the sequence number loaded first, and the words copied since. */
  datatype Op = NoOp | Copying(k: Key, forWrite: bool, first: nat, buf: Value)

  /** lockPoint is 0 until the whole write set is locked, and then the position of that moment among
      all such moments. acked holds the (backup, key) pairs already applied. */
  datatype Txn = Txn(cor: nat, phase: Phase, op: Op, rset: seq<ReadItem>, wset: map<Key, WriteItem>,
                     lockPoint: nat, acked: set<(Node, Key)>)

  predicate Locked(w: WriteItem) {
    w.stage.Swapped? || w.stage.Verified? || w.stage.Flagged? || w.stage.Stored?
  }

  predicate Holds(t: Txn, k: Key) {
    k in t.wset && Locked(t.wset[k])
  }

  predicate Committed(t: Txn) {
    t.phase.Logging? || t.phase.Installing? || t.phase.Done?
  }

  predicate Over(t: Txn) {
    t.phase.Done? || t.phase.Dead?
  }

  // ---------------------------------------------------------------------------------------------
  // The system
  // ---------------------------------------------------------------------------------------------

  /** cur names the transaction each coroutine ran last; a lock word holds a coroutine, 0 if free. */
  datatype State = State(init: S.Store, recs: map<Key, Record>, txns: map<nat, Txn>, cur: map<nat, nat>, clock: nat)

  ghost predicate Init(s: State) {
    && s.txns == map[] && s.cur == map[] && s.clock == 0
    && s.recs.Keys == s.init.Keys
    && forall k | k in s.recs :: InitRecord(s.recs[k], s.init[k])
  }

  ghost predicate InitRecord(rec: Record, v: Value) {
    && rec.lock == 0 && rec.seqno == 0 && rec.words == v && rec.hist == []
    && forall b | b in rec.backup :: rec.backup[b] == Backup(v, [])
  }

  function PutTxn(s: State, id: nat, t: Txn): State {
    s.(txns := s.txns[id := t])
  }

  function PutBoth(s: State, id: nat, t: Txn, k: Key, rec: Record): State {
    s.(txns := s.txns[id := t], recs := s.recs[k := rec])
  }

  function SetStage(t: Txn, k: Key, stage: Stage): Txn
    requires k in t.wset
  {
    t.(wset := t.wset[k := t.wset[k].(stage := stage)])
  }

  predicate In(s: State, id: nat, phase: Phase) {
    id in s.txns && s.txns[id].phase == phase
  }

  /** k is in the write set of id, which is in the given phase. */
  predicate On(s: State, id: nat, phase: Phase, k: Key) {
    In(s, id, phase) && k in s.txns[id].wset && k in s.recs
  }

  /** A coroutine starts a transaction after the previous one has had all its replies. */
  ghost predicate Begin(s: State, s': State, c: nat, id: nat) {
    && c != 0 && id !in s.txns
    && (c in s.cur ==> s.cur[c] in s.txns && Over(s.txns[s.cur[c]]))
    && s' == s.(txns := s.txns[id := Txn(c, Executing, NoOp, [], map[], 0, {})], cur := s.cur[c := id])
  }

  /** local_get_op, for a read or a write item: load the sequence number ... */
  ghost predicate GetLoad(s: State, s': State, id: nat, k: Key, forWrite: bool) {
    && In(s, id, Executing) && k in s.recs
    && (s.txns[id].op.Copying? ==> s.txns[id].op.k == k && s.txns[id].op.forWrite == forWrite)
    && (forWrite ==> k !in s.txns[id].wset)
    && s' == PutTxn(s, id, s.txns[id].(op := Copying(k, forWrite, s.recs[k].seqno, [])))
  }

  /** ... copy the value ... */
  ghost predicate GetWord(s: State, s': State, id: nat, k: Key) {
    && In(s, id, Executing) && k in s.recs
    && var op := s.txns[id].op;
    && op.Copying? && op.k == k && |op.buf| < |s.recs[k].words|
    && s' == PutTxn(s, id, s.txns[id].(op := op.(buf := op.buf + [s.recs[k].words[|op.buf|]])))
  }

  /** ... and accept it if the sequence number is the same and no overwrite is under way. */
  ghost predicate GetCheck(s: State, s': State, id: nat, k: Key) {
    && In(s, id, Executing) && k in s.recs
    && var t := s.txns[id];
    && t.op.Copying? && t.op.k == k && |t.op.buf| == |s.recs[k].words|
    && s.recs[k].seqno == t.op.first && t.op.first != CONFLICT_WRITE_FLAG
    && s' == PutTxn(s, id,
                    if t.op.forWrite then t.(op := NoOp, wset := t.wset[k := WriteItem(t.op.first, t.op.buf, t.op.buf, Free)])
                    else t.(op := NoOp, rset := t.rset + [ReadItem(k, t.op.first, t.op.buf, Unchecked)]))
  }

  function Seal(wset: map<Key, WriteItem>, vals: map<Key, Value>): map<Key, WriteItem>
    requires vals.Keys == wset.Keys
  {
    map k | k in wset :: wset[k].(val := vals[k])
  }

  /** commit is called; the write set has its final values. */
  ghost predicate StartCommit(s: State, s': State, id: nat, vals: map<Key, Value>) {
    && In(s, id, Executing) && s.txns[id].op == NoOp
    && vals.Keys == s.txns[id].wset.Keys
    && (forall k | k in vals :: |vals[k]| == |s.txns[id].wset[k].base|)
    && s' == PutTxn(s, id, s.txns[id].(phase := Locking, wset := Seal(s.txns[id].wset, vals)))
  }

  ghost predicate TryLock(s: State, s': State, id: nat, k: Key) {
    && On(s, id, Locking, k) && s.txns[id].wset[k].stage == Free
    && s.recs[k].lock == 0
    && s' == PutBoth(s, id, SetStage(s.txns[id], k, Swapped), k, s.recs[k].(lock := s.txns[id].cor))
  }

  /** The lock handler compares sequence numbers after its compare-and-swap has succeeded. */
  ghost predicate LockVerify(s: State, s': State, id: nat, k: Key) {
    && On(s, id, Locking, k) && s.txns[id].wset[k].stage == Swapped
    && s.recs[k].seqno == s.txns[id].wset[k].seqno
    && s' == PutTxn(s, id, SetStage(s.txns[id], k, Verified))
  }

  /** lock_writes has had a successful reply for every item. */
  ghost predicate LockPoint(s: State, s': State, id: nat) {
    && In(s, id, Locking)
    && (forall k | k in s.txns[id].wset :: s.txns[id].wset[k].stage == Verified)
    && s' == PutTxn(s, id, s.txns[id].(phase := Validating, lockPoint := s.clock + 1)).(clock := s.clock + 1)
  }

  function SetCheck(t: Txn, i: nat, check: Check): Txn
    requires i < |t.rset|
  {
    t.(rset := t.rset[i := t.rset[i].(check := check)])
  }

  /** local_validate_op: the sequence number first ... */
  ghost predicate ValidateSeq(s: State, s': State, id: nat, i: nat) {
    && In(s, id, Validating) && i < |s.txns[id].rset|
    && var item := s.txns[id].rset[i];
    && item.check == Unchecked && item.k in s.recs && s.recs[item.k].seqno == item.seqno
    && s' == PutTxn(s, id, SetCheck(s.txns[id], i, SeqMatched))
  }

  /** ... and then the lock. */
  ghost predicate ValidateLock(s: State, s': State, id: nat, i: nat) {
    && In(s, id, Validating) && i < |s.txns[id].rset|
    && var item := s.txns[id].rset[i];
    && item.check == SeqMatched && item.k in s.recs && s.recs[item.k].lock == 0
    && s' == PutTxn(s, id, SetCheck(s.txns[id], i, Valid(s.recs[item.k].seqno == item.seqno)))
  }

  /** Every read is valid: the transaction is committed and goes to the backups. */
  ghost predicate Decide(s: State, s': State, id: nat) {
    && In(s, id, Validating)
    && (forall i | 0 <= i < |s.txns[id].rset| :: s.txns[id].rset[i].check.Valid?)
    && s' == PutTxn(s, id, s.txns[id].(phase := Logging))
  }

  /** clean_log at backup b copies one item of the acknowledged log into the backup store. */
  ghost predicate Apply(s: State, s': State, id: nat, b: Node, k: Key) {
    && On(s, id, Logging, k) && b in s.recs[k].backup && (b, k) !in s.txns[id].acked
    && var rec := s.recs[k];
    && s' == PutBoth(s, id, s.txns[id].(acked := s.txns[id].acked + {(b, k)}), k,
                     rec.(backup := rec.backup[b := Backup(s.txns[id].wset[k].val, rec.backup[b].log + [id])]))
  }

  /** Every backup has replied. */
  ghost predicate LogDone(s: State, s': State, id: nat) {
    && In(s, id, Logging) && s.txns[id].wset.Keys <= s.recs.Keys
    && (forall k, b | k in s.txns[id].wset && b in s.recs[k].backup :: (b, k) in s.txns[id].acked)
    && s' == PutTxn(s, id, s.txns[id].(phase := Installing))
  }

  /** inplace_write_op: raise the flag ... */
  ghost predicate StoreFlag(s: State, s': State, id: nat, k: Key) {
    && On(s, id, Installing, k) && s.txns[id].wset[k].stage == Verified
    && s' == PutBoth(s, id, SetStage(s.txns[id], k, Flagged(s.recs[k].seqno, 0)), k, s.recs[k].(seqno := CONFLICT_WRITE_FLAG))
  }

  /** ... store the value ... */
  ghost predicate StoreWord(s: State, s': State, id: nat, k: Key) {
    && On(s, id, Installing, k)
    && var w := s.txns[id].wset[k];
    && var rec := s.recs[k];
    && w.stage.Flagged? && w.stage.words < |w.val| && w.stage.words < |rec.words|
    && s' == PutBoth(s, id, SetStage(s.txns[id], k, w.stage.(words := w.stage.words + 1)), k,
                     rec.(words := rec.words[w.stage.words := w.val[w.stage.words]]))
  }

  /** ... publish it with the next sequence number ... */
  ghost predicate StoreSeq(s: State, s': State, id: nat, k: Key) {
    && On(s, id, Installing, k)
    && var w := s.txns[id].wset[k];
    && w.stage.Flagged? && w.stage.words == |w.val|
    && s' == PutBoth(s, id, SetStage(s.txns[id], k, Stored), k,
                     s.recs[k].(seqno := w.stage.last + 2, hist := s.recs[k].hist + [id]))
  }

  /** ... and unlock. */
  ghost predicate StoreUnlock(s: State, s': State, id: nat, k: Key) {
    && On(s, id, Installing, k) && s.txns[id].wset[k].stage == Stored
    && s' == PutBoth(s, id, SetStage(s.txns[id], k, Unlocked), k, s.recs[k].(lock := 0))
  }

  ghost predicate AllUnlocked(t: Txn) {
    forall k | k in t.wset :: t.wset[k].stage == Unlocked
  }

  ghost predicate Finish(s: State, s': State, id: nat) {
    && In(s, id, Installing) && AllUnlocked(s.txns[id])
    && s' == PutTxn(s, id, s.txns[id].(phase := Done))
  }

  /** A failed lock or validation, or the application's wish. */
  ghost predicate Abort(s: State, s': State, id: nat) {
    && (In(s, id, Executing) || In(s, id, Locking) || In(s, id, Validating))
    && s' == PutTxn(s, id, s.txns[id].(phase := Aborting, op := NoOp))
  }

  /** The release handler frees the record if the lock word holds the requester's coroutine. */
  ghost predicate Release(s: State, s': State, id: nat, k: Key) {
    && On(s, id, Aborting, k) && s.txns[id].wset[k].stage != Unlocked
    && var rec := s.recs[k];
    && s' == PutBoth(s, id, SetStage(s.txns[id], k, Unlocked), k, if rec.lock == s.txns[id].cor then rec.(lock := 0) else rec)
  }

  ghost predicate Die(s: State, s': State, id: nat) {
    && In(s, id, Aborting) && AllUnlocked(s.txns[id])
    && s' == PutTxn(s, id, s.txns[id].(phase := Dead))
  }

  datatype Step =
    | BeginStep(c: nat, id: nat)
    | GetLoadStep(id: nat, k: Key, forWrite: bool)
    | GetWordStep(id: nat, k: Key)
    | GetCheckStep(id: nat, k: Key)
    | StartCommitStep(id: nat, vals: map<Key, Value>)
    | TryLockStep(id: nat, k: Key)
    | LockVerifyStep(id: nat, k: Key)
    | LockPointStep(id: nat)
    | ValidateSeqStep(id: nat, i: nat)
    | ValidateLockStep(id: nat, i: nat)
    | DecideStep(id: nat)
    | ApplyStep(id: nat, b: Node, k: Key)
    | LogDoneStep(id: nat)
    | StoreFlagStep(id: nat, k: Key)
    | StoreWordStep(id: nat, k: Key)
    | StoreSeqStep(id: nat, k: Key)
    | StoreUnlockStep(id: nat, k: Key)
    | FinishStep(id: nat)
    | AbortStep(id: nat)
    | ReleaseStep(id: nat, k: Key)
    | DieStep(id: nat)

  ghost predicate NextBy(s: State, s': State, step: Step) {
    match step
    case BeginStep(c, id) => Begin(s, s', c, id)
    case GetLoadStep(id, k, forWrite) => GetLoad(s, s', id, k, forWrite)
    case GetWordStep(id, k) => GetWord(s, s', id, k)
    case GetCheckStep(id, k) => GetCheck(s, s', id, k)
    case StartCommitStep(id, vals) => StartCommit(s, s', id, vals)
    case TryLockStep(id, k) => TryLock(s, s', id, k)
    case LockVerifyStep(id, k) => LockVerify(s, s', id, k)
    case LockPointStep(id) => LockPoint(s, s', id)
    case ValidateSeqStep(id, i) => ValidateSeq(s, s', id, i)
    case ValidateLockStep(id, i) => ValidateLock(s, s', id, i)
    case DecideStep(id) => Decide(s, s', id)
    case ApplyStep(id, b, k) => Apply(s, s', id, b, k)
    case LogDoneStep(id) => LogDone(s, s', id)
    case StoreFlagStep(id, k) => StoreFlag(s, s', id, k)
    case StoreWordStep(id, k) => StoreWord(s, s', id, k)
    case StoreSeqStep(id, k) => StoreSeq(s, s', id, k)
    case StoreUnlockStep(id, k) => StoreUnlock(s, s', id, k)
    case FinishStep(id) => Finish(s, s', id)
    case AbortStep(id) => Abort(s, s', id)
    case ReleaseStep(id, k) => Release(s, s', id, k)
    case DieStep(id) => Die(s, s', id)
  }

  ghost predicate Next(s: State, s': State) {
    exists step :: NextBy(s, s', step)
  }

  ghost predicate StepAt(run: seq<State>, i: nat)
    requires i + 1 < |run|
  {
    Next(run[i], run[i + 1])
  }

  ghost predicate Run(run: seq<State>) {
    run != [] && Init(run[0]) && forall i | 0 <= i < |run| - 1 :: StepAt(run, i)
  }
}
