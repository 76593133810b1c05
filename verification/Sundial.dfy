/** Logical leases.

    Each record carries the time its value was written and the time until which it has been promised
    not to change. A transaction's commit time is past every version it read and past every lease on
    what it writes; before committing it extends the leases it depends on. A posted RDMA operation is
    one step, and so is each memory access of the renewal handler. */
module Sundial {
  import S = Serializability

  type Key = S.Key
  type Value = S.Value

  // ---------------------------------------------------------------------------------------------
  // Records and transactions
  // ---------------------------------------------------------------------------------------------

  /** lock holds the start time of a transaction, or 0. hist lists the transactions that installed a
      value, in order; it is not part of the program's memory. */
  datatype Record = Record(lock: nat, wts: nat, rts: nat, val: Value, hist: seq<nat>)

  /** The renewal of one lease: lock word loaded; checked and about to be stored; refused. */
  datatype Renewal = Idle | LockLoaded(lock: nat) | Storing | Failed

  /** ver, the number of the version read, is not part of the program's memory. lease is the time up
      to which this transaction knows the version to be current. */
  datatype ReadItem = ReadItem(k: Key, ver: nat, wts: nat, lease: nat, val: Value, confirmed: bool, renewal: Renewal)

  datatype Stage = Locked | Held | Stored | Unlocked | Freed | Again

  datatype WriteItem = WriteItem(ver: nat, rts: nat, base: Value, val: Value, stage: Stage)

  datatype Phase = Executing | Renewing | Installing | Done | Aborting | Dead

  /** point is 0 until the transaction is decided, and then the position of that moment among all
      such moments. rounds counts the releases an aborted transaction still has to send. */
  datatype Txn = Txn(cor: nat, phase: Phase, commit: nat, rset: seq<ReadItem>, wset: map<Key, WriteItem>, point: nat, rounds: nat)

  predicate Holds(t: Txn, k: Key) {
    k in t.wset && (t.wset[k].stage.Locked? || t.wset[k].stage.Held? || t.wset[k].stage.Stored?)
  }

  predicate Committed(t: Txn) {
    t.phase.Installing? || t.phase.Done?
  }

  predicate Over(t: Txn) {
    t.phase.Done? || t.phase.Dead?
  }

  // ---------------------------------------------------------------------------------------------
  // The system
  // ---------------------------------------------------------------------------------------------

  /** cur names the transaction each coroutine ran last. calm says that so far no release has freed
      somebody else's lock and no renewal has stored a lease that others had overtaken. */
  datatype State = State(init: S.Store, recs: map<Key, Record>, txns: map<nat, Txn>, cur: map<nat, nat>, clock: nat, calm: bool)

  ghost predicate Init(s: State) {
    && s.txns == map[] && s.cur == map[] && s.clock == 0 && s.calm
    && s.recs.Keys == s.init.Keys
    && forall k | k in s.recs :: s.recs[k] == Record(0, 0, 0, s.init[k], [])
  }

  function PutTxn(s: State, id: nat, t: Txn): State {
    s.(txns := s.txns[id := t])
  }

  function PutBoth(s: State, id: nat, t: Txn, k: Key, rec: Record): State {
    s.(txns := s.txns[id := t], recs := s.recs[k := rec])
  }

  function Max(a: nat, b: nat): nat { if a < b then b else a }

  predicate In(s: State, id: nat, phase: Phase) {
    id in s.txns && s.txns[id].phase == phase
  }

  predicate On(s: State, id: nat, phase: Phase, k: Key) {
    In(s, id, phase) && k in s.txns[id].wset && k in s.recs
  }

  function SetStage(t: Txn, k: Key, stage: Stage): Txn
    requires k in t.wset
  {
    t.(wset := t.wset[k := t.wset[k].(stage := stage)])
  }

  function SetItem(t: Txn, i: nat, item: ReadItem): Txn
    requires i < |t.rset|
  {
    t.(rset := t.rset[i := item])
  }

  /** begin: the lock word of a transaction is its start time, which is new. The commit time is not
      reset: it starts where the coroutine's previous transaction left it. */
  ghost predicate Begin(s: State, s': State, c: nat, id: nat) {
    && id != 0 && id !in s.txns
    && (c in s.cur ==> s.cur[c] in s.txns && Over(s.txns[s.cur[c]]))
    && s' == s.(txns := s.txns[id := Txn(c, Executing, if c in s.cur then s.txns[s.cur[c]].commit else 0, [], map[], 0, 0)],
                cur := s.cur[c := id])
  }

  /** try_read_rdma: one READ of timestamps and value ... */
  ghost predicate Fetch(s: State, s': State, id: nat, k: Key) {
    && In(s, id, Executing) && k in s.recs
    && var rec := s.recs[k];
    && s' == PutTxn(s, id, s.txns[id].(rset := s.txns[id].rset + [ReadItem(k, |rec.hist|, rec.wts, rec.rts, rec.val, false, Idle)]))
  }

  /** item i of id's read set, in the given phase. */
  predicate Item(s: State, id: nat, phase: Phase, i: nat) {
    In(s, id, phase) && i < |s.txns[id].rset| && s.txns[id].rset[i].k in s.recs
  }

  /** ... and a second one that must find the same version. */
  ghost predicate Confirm(s: State, s': State, id: nat, i: nat) {
    && Item(s, id, Executing, i)
    && var t := s.txns[id];
    && var item := t.rset[i];
    && s.recs[item.k].wts == item.wts
    && s' == PutTxn(s, id, SetItem(t, i, item.(confirmed := true)).(commit := Max(t.commit, item.wts)))
  }

  /** try_lock_read_rdma: compare-and-swap on the lock word ... */
  ghost predicate LockCas(s: State, s': State, id: nat, k: Key) {
    && In(s, id, Executing) && k in s.recs && k !in s.txns[id].wset
    && s.recs[k].lock == 0
    && s' == PutBoth(s, id, s.txns[id].(wset := s.txns[id].wset[k := WriteItem(0, 0, [], [], Locked)]), k, s.recs[k].(lock := id))
  }

  /** ... and the READ behind it. */
  ghost predicate LockRead(s: State, s': State, id: nat, k: Key) {
    && On(s, id, Executing, k) && s.txns[id].wset[k].stage == Locked
    && var t := s.txns[id];
    && var rec := s.recs[k];
    && s' == PutTxn(s, id, t.(wset := t.wset[k := WriteItem(|rec.hist|, rec.rts, rec.val, rec.val, Held)],
                              commit := Max(t.commit, rec.rts + 1)))
  }

  function Seal(wset: map<Key, WriteItem>, vals: map<Key, Value>): map<Key, WriteItem>
    requires vals.Keys == wset.Keys
  {
    map k | k in wset :: wset[k].(val := vals[k])
  }

  /** commit is called: everything has been read and locked, and the write set has its final values. */
  ghost predicate Prepare(s: State, s': State, id: nat, vals: map<Key, Value>) {
    && In(s, id, Executing) && vals.Keys == s.txns[id].wset.Keys
    && (forall k | k in s.txns[id].wset :: s.txns[id].wset[k].stage == Held)
    && (forall i | 0 <= i < |s.txns[id].rset| :: s.txns[id].rset[i].confirmed)
    && s' == PutTxn(s, id, s.txns[id].(phase := Renewing, wset := Seal(s.txns[id].wset, vals)))
  }

  /** renew_lease_local, for a lease that ends too early: load the lock ... */
  ghost predicate RenewLock(s: State, s': State, id: nat, i: nat) {
    && Item(s, id, Renewing, i)
    && var item := s.txns[id].rset[i];
    && item.renewal == Idle && item.lease < s.txns[id].commit
    && s' == PutTxn(s, id, SetItem(s.txns[id], i, item.(renewal := LockLoaded(s.recs[item.k].lock))))
  }

  /** ... load the timestamps; somebody else may already have extended the lease far enough ... */
  ghost predicate RenewKeep(s: State, s': State, id: nat, i: nat) {
    && Item(s, id, Renewing, i)
    && var t := s.txns[id];
    && var item := t.rset[i];
    && item.renewal.LockLoaded? && s.recs[item.k].wts == item.wts && t.commit <= s.recs[item.k].rts
    && s' == PutTxn(s, id, SetItem(t, i, item.(renewal := Idle, lease := t.commit)))
  }

  /** ... or it has to be extended, which a lock forbids ... */
  ghost predicate RenewPass(s: State, s': State, id: nat, i: nat) {
    && Item(s, id, Renewing, i)
    && var t := s.txns[id];
    && var item := t.rset[i];
    && item.renewal == LockLoaded(0) && s.recs[item.k].wts == item.wts && s.recs[item.k].rts < t.commit
    && s' == PutTxn(s, id, SetItem(t, i, item.(renewal := Storing)))
  }

  /** Nothing has come between the loads of a renewal and its store that the store would undo. */
  predicate Undisturbed(rec: Record, item: ReadItem, commit: nat) {
    rec.lock == 0 && rec.wts == item.wts && rec.rts <= commit
  }

  /** ... by storing the loaded write time and the new lease. */
  ghost predicate RenewStore(s: State, s': State, id: nat, i: nat) {
    && Item(s, id, Renewing, i)
    && var t := s.txns[id];
    && var item := t.rset[i];
    && item.renewal == Storing
    && var rec := s.recs[item.k];
    && s' == PutBoth(s, id, SetItem(t, i, item.(renewal := Idle, lease := t.commit)), item.k, rec.(wts := item.wts, rts := t.commit))
              .(calm := s.calm && Undisturbed(rec, item, t.commit))
  }

  /** ... or the lease cannot be renewed. The rest of the batch goes on. */
  ghost predicate RenewFail(s: State, s': State, id: nat, i: nat) {
    && Item(s, id, Renewing, i)
    && var t := s.txns[id];
    && var item := t.rset[i];
    && item.renewal.LockLoaded?
    && (s.recs[item.k].wts != item.wts || (s.recs[item.k].rts < t.commit && item.renewal.lock != 0))
    && s' == PutTxn(s, id, SetItem(t, i, item.(renewal := Failed)))
  }

  /** All replies are there, and a lease has not been renewed. prepare releases the write set and fails;
      then commit, which called it, releases the write set once more. */
  ghost predicate GiveUp(s: State, s': State, id: nat) {
    && In(s, id, Renewing)
    && var t := s.txns[id];
    && (exists i :: 0 <= i < |t.rset| && t.rset[i].renewal == Failed)
    && (forall i | 0 <= i < |t.rset| :: t.rset[i].renewal == Failed || (t.rset[i].renewal == Idle && t.commit <= t.rset[i].lease))
    && s' == PutTxn(s, id, t.(phase := Aborting, rounds := 2))
  }

  /** Every lease reaches the commit time, by itself or after renewal: the transaction is committed. */
  ghost predicate Decide(s: State, s': State, id: nat) {
    && In(s, id, Renewing)
    && (forall i | 0 <= i < |s.txns[id].rset| :: s.txns[id].rset[i].renewal == Idle && s.txns[id].commit <= s.txns[id].rset[i].lease)
    && s' == PutTxn(s, id, s.txns[id].(phase := Installing, point := s.clock + 1)).(clock := s.clock + 1)
  }

  /** try_update_rdma: one WRITE of timestamps and value ... */
  ghost predicate Install(s: State, s': State, id: nat, k: Key) {
    && On(s, id, Installing, k)
    && var t := s.txns[id];
    && t.wset[k].stage == Held
    && var rec := s.recs[k];
    && s' == PutBoth(s, id, SetStage(t, k, Stored), k,
                     rec.(wts := t.commit, rts := t.commit, val := t.wset[k].val, hist := rec.hist + [id]))
  }

  /** ... and one of a zero to the lock word. */
  ghost predicate Unlock(s: State, s': State, id: nat, k: Key) {
    && On(s, id, Installing, k) && s.txns[id].wset[k].stage == Stored
    && s' == PutBoth(s, id, SetStage(s.txns[id], k, Unlocked), k, s.recs[k].(lock := 0))
  }

  ghost predicate All(t: Txn, stage: Stage) {
    forall k | k in t.wset :: t.wset[k].stage == stage
  }

  ghost predicate Finish(s: State, s': State, id: nat) {
    && In(s, id, Installing) && All(s.txns[id], Unlocked)
    && s' == PutTxn(s, id, s.txns[id].(phase := Done))
  }

  /** A read or a lock was refused: one release. */
  ghost predicate Abort(s: State, s': State, id: nat) {
    && In(s, id, Executing)
    && s' == PutTxn(s, id, s.txns[id].(phase := Aborting, rounds := 1))
  }

  /** release_rpc_handler and the one-sided unlock store a zero, whoever holds the lock. */
  ghost predicate Release(s: State, s': State, id: nat, k: Key) {
    && On(s, id, Aborting, k) && s.txns[id].wset[k].stage != Freed
    && var rec := s.recs[k];
    && s' == PutBoth(s, id, SetStage(s.txns[id], k, Freed), k, rec.(lock := 0))
              .(calm := s.calm && (rec.lock == 0 || rec.lock == id))
  }

  function AllAgain(t: Txn): Txn {
    t.(rounds := if t.rounds == 0 then 0 else t.rounds - 1, wset := map k | k in t.wset :: t.wset[k].(stage := Again))
  }

  ghost predicate NextRound(s: State, s': State, id: nat) {
    && In(s, id, Aborting) && All(s.txns[id], Freed) && 1 < s.txns[id].rounds
    && s' == PutTxn(s, id, AllAgain(s.txns[id]))
  }

  ghost predicate Die(s: State, s': State, id: nat) {
    && In(s, id, Aborting) && All(s.txns[id], Freed) && s.txns[id].rounds <= 1
    && s' == PutTxn(s, id, s.txns[id].(phase := Dead))
  }

  datatype Step =
    | BeginStep(c: nat, id: nat)
    | FetchStep(id: nat, k: Key)
    | ConfirmStep(id: nat, i: nat)
    | LockCasStep(id: nat, k: Key)
    | LockReadStep(id: nat, k: Key)
    | PrepareStep(id: nat, vals: map<Key, Value>)
    | RenewLockStep(id: nat, i: nat)
    | RenewKeepStep(id: nat, i: nat)
    | RenewPassStep(id: nat, i: nat)
    | RenewStoreStep(id: nat, i: nat)
    | RenewFailStep(id: nat, i: nat)
    | GiveUpStep(id: nat)
    | DecideStep(id: nat)
    | InstallStep(id: nat, k: Key)
    | UnlockStep(id: nat, k: Key)
    | FinishStep(id: nat)
    | AbortStep(id: nat)
    | ReleaseStep(id: nat, k: Key)
    | NextRoundStep(id: nat)
    | DieStep(id: nat)

  ghost predicate NextBy(s: State, s': State, step: Step) {
    match step
    case BeginStep(c, id) => Begin(s, s', c, id)
    case FetchStep(id, k) => Fetch(s, s', id, k)
    case ConfirmStep(id, i) => Confirm(s, s', id, i)
    case LockCasStep(id, k) => LockCas(s, s', id, k)
    case LockReadStep(id, k) => LockRead(s, s', id, k)
    case PrepareStep(id, vals) => Prepare(s, s', id, vals)
    case RenewLockStep(id, i) => RenewLock(s, s', id, i)
    case RenewKeepStep(id, i) => RenewKeep(s, s', id, i)
    case RenewPassStep(id, i) => RenewPass(s, s', id, i)
    case RenewStoreStep(id, i) => RenewStore(s, s', id, i)
    case RenewFailStep(id, i) => RenewFail(s, s', id, i)
    case GiveUpStep(id) => GiveUp(s, s', id)
    case DecideStep(id) => Decide(s, s', id)
    case InstallStep(id, k) => Install(s, s', id, k)
    case UnlockStep(id, k) => Unlock(s, s', id, k)
    case FinishStep(id) => Finish(s, s', id)
    case AbortStep(id) => Abort(s, s', id)
    case ReleaseStep(id, k) => Release(s, s', id, k)
    case NextRoundStep(id) => NextRound(s, s', id)
    case DieStep(id) => Die(s, s', id)
  }

  ghost predicate Next(s: State, s': State) {
    exists step :: NextBy(s, s', step)
  }

  ghost predicate StepAt(run: seq<State>, i: nat)
    requires i + 1 < |run|
  {
    Next(run[i], run[i + 1])
  }

  ghost predicate Run(run: seq<State>) {
    run != [] && Init(run[0]) && forall i | 0 <= i < |run| - 1 :: StepAt(run, i)
  }
}
