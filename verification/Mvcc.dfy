/** Timestamp-ordered multiversion concurrency control, RPC path.

    The state machine interleaves, one memory access at a time, the handlers that read, lock,
    install and release a record. Any number of coroutines on any number of nodes run transactions
    over any set of records; a transaction is identified by its timestamp. */
module Mvcc {
  import S = Serializability

  type Key = S.Key
  type Value = S.Value

  const VERSION_NUM: nat := 4

  /** The write timestamp with which the loaders mark the initial version, in slot 0. */
  const INIT_WTS: nat := 1

  // ---------------------------------------------------------------------------------------------
  // Records and the scans over their slots
  // ---------------------------------------------------------------------------------------------

  datatype Record = Record(lock: nat, rts: nat, wts: seq<nat>, data: seq<Value>)

  /** The slot holding the largest non-zero write timestamp below t, or -2. */
  function LatestBelow(wts: seq<nat>, t: nat): (pos: int)
    ensures pos == -2 || 0 <= pos < |wts|
    ensures pos == -2 ==> forall i | 0 <= i < |wts| :: wts[i] == 0 || t <= wts[i]
    ensures 0 <= pos ==> 0 < wts[pos] < t && forall i | 0 <= i < |wts| && wts[i] < t :: wts[i] <= wts[pos]
    ensures forall i | 0 <= i < pos && wts[i] < t :: wts[i] < wts[pos]
  {
    if wts == [] then -2
    else
      var n := |wts| - 1;
      var pos := LatestBelow(wts[..n], t);
      if wts[n] < t && wts[n] > (if pos < 0 then 0 else wts[pos]) then n else pos
  }

  /** check_read: -1 when an earlier writer holds the record, -2 when it has no earlier version, else
      the slot to read. */
  function CheckRead(rec: Record, t: nat): (pos: int)
    ensures pos == -1 <==> 0 < rec.lock < t
    ensures pos == -2 ==> forall i | 0 <= i < |rec.wts| :: rec.wts[i] == 0 || t <= rec.wts[i]
    ensures pos == -1 || pos == -2 || 0 <= pos < |rec.wts|
    ensures 0 <= pos ==> 0 < rec.wts[pos] < t && forall i | 0 <= i < |rec.wts| && rec.wts[i] < t :: rec.wts[i] <= rec.wts[pos]
  {
    if rec.lock != 0 && rec.lock < t then -1 else LatestBelow(rec.wts, t)
  }

  /** The first slot with the largest write timestamp; -1 when every slot is empty. */
  function MaxSlot(wts: seq<nat>): (pos: int)
    ensures -1 <= pos < |wts|
    ensures pos == -1 ==> forall i | 0 <= i < |wts| :: wts[i] == 0
    ensures 0 <= pos ==> 0 < wts[pos] && forall i | 0 <= i < |wts| :: wts[i] <= wts[pos]
    ensures forall i | 0 <= i < pos :: wts[i] < wts[pos]
  {
    if wts == [] then -1
    else
      var n := |wts| - 1;
      var pos := MaxSlot(wts[..n]);
      if wts[n] > (if pos < 0 then 0 else wts[pos]) then n else pos
  }

  /** The first slot with the smallest write timestamp: the version to overwrite. */
  function MinSlot(wts: seq<nat>): (pos: int)
    ensures -1 <= pos < |wts|
    ensures pos == -1 <==> wts == []
    ensures 0 <= pos ==> forall i | 0 <= i < |wts| :: wts[pos] <= wts[i]
    ensures forall i | 0 <= i < pos :: wts[pos] < wts[i]
  {
    if wts == [] then -1
    else
      var n := |wts| - 1;
      var pos := MinSlot(wts[..n]);
      if pos < 0 || wts[n] < wts[pos] then n else pos
  }

  function MaxWts(wts: seq<nat>): (top: nat)
    ensures top == 0 || top in wts
    ensures forall i | 0 <= i < |wts| :: wts[i] <= top
  {
    var pos := MaxSlot(wts);
    if pos < 0 then 0 else wts[pos]
  }

  function Max(a: nat, b: nat): (c: nat)
    ensures a <= c && b <= c && (c == a || c == b)
  {
    if a < b then b else a
  }

  /** check_write: 0 when t may still write, else the largest timestamp that forbids it. */
  function CheckWrite(rec: Record, t: nat): (blocker: nat)
    ensures blocker == 0 <==> (rec.rts <= t && forall i | 0 <= i < |rec.wts| :: rec.wts[i] <= t)
    ensures blocker != 0 ==> t < blocker && (blocker == rec.rts || blocker in rec.wts)
    ensures blocker != 0 ==> rec.rts <= blocker && forall i | 0 <= i < |rec.wts| :: rec.wts[i] <= blocker
  {
    var top := Max(rec.rts, MaxWts(rec.wts));
    if top > t then top else 0
  }

  // ---------------------------------------------------------------------------------------------
  // Timestamps
  // ---------------------------------------------------------------------------------------------

  datatype Cor = Cor(node: nat, worker: nat, id: nat)

  predicate ValidCor(c: Cor) {
    c.node < 12 && c.worker < 8 && 1 <= c.id <= 10
  }

  function Slot(c: Cor): nat {
    c.node * 80 + c.worker * 10 + c.id + 1
  }

  /** The low ten bits name the coroutine, the rest is its own counter. */
  function Timestamp(count: nat, c: Cor): nat {
    count * 1024 + Slot(c)
  }

  // ---------------------------------------------------------------------------------------------
  // Transactions
  // ---------------------------------------------------------------------------------------------

  /** A version read: the timestamp loaded next to the data, the one check_read chose, the bytes. whole
      says that every word of the version had been stored when it was copied; it is not part of the
      program's memory. */
  datatype ReadRec = ReadRec(ver: nat, chosen: nat, val: Value, whole: bool) {
    /** No commit replaced the slot between the check and the second load of its timestamp. */
    predicate Clean() { ver == chosen }
  }

  datatype Stage = Held | Storing(words: nat) | Unlocked

  /** A write-set entry: the slot to overwrite, the version read under the lock, the new value. */
  datatype WriteRec = WriteRec(pos: nat, base: nat, baseVal: Value, val: Value, stage: Stage)

  datatype Status = Active | Committed | Aborted

  /** Where a transaction is inside read_rpc_handler or lock_read_rpc_handler. */
  datatype Op =
    | NoOp
    | Checked(k: Key, pos: nat, w: nat)
    | Bumped(k: Key, pos: nat, w: nat)
    | Copying(k: Key, pos: nat, w: nat, b: nat, buf: Value, whole: bool)
    | WriteChecked(k: Key)
    | LockSeen(k: Key)
    | Locked(k: Key)

  datatype Attempt = Attempt(cor: Cor, status: Status, op: Op, rset: map<Key, ReadRec>, wset: map<Key, WriteRec>)

  predicate Holds(a: Attempt, k: Key) {
    a.op == Locked(k) || (k in a.wset && !a.wset[k].stage.Unlocked?)
  }

  // ---------------------------------------------------------------------------------------------
  // The system
  // ---------------------------------------------------------------------------------------------

  datatype State = State(init: S.Store, recs: map<Key, Record>, txns: map<nat, Attempt>, clock: map<Cor, nat>)

  ghost predicate Init(s: State) {
    && s.txns == map[]
    && s.recs.Keys == s.init.Keys
    && (forall k | k in s.recs :: InitRecord(s.recs[k], s.init[k]))
    && (forall c | c in s.clock :: ValidCor(c) && s.clock[c] == 0)
  }

  predicate InitRecord(rec: Record, v: Value) {
    && rec.lock == 0 && rec.rts == 0
    && rec.wts == [INIT_WTS, 0, 0, 0]
    && |rec.data| == VERSION_NUM && rec.data[0] == v
    && forall i | 0 <= i < VERSION_NUM :: |rec.data[i]| == |v|
  }

  function PutTxn(s: State, t: nat, a: Attempt): State {
    s.(txns := s.txns[t := a])
  }

  function PutBoth(s: State, t: nat, a: Attempt, k: Key, rec: Record): State {
    s.(txns := s.txns[t := a], recs := s.recs[k := rec])
  }

  /** t is running, and k names a record. */
  predicate Running(s: State, t: nat, k: Key) {
    t in s.txns && s.txns[t].status == Active && k in s.recs
  }

  /** begin: a coroutine with no running transaction advances its counter. */
  ghost predicate Begin(s: State, s': State, c: Cor, t: nat) {
    && c in s.clock
    && (forall x | x in s.txns && s.txns[x].cor == c :: s.txns[x].status != Active)
    && t == Timestamp(s.clock[c] + 1, c)
    && s' == s.(txns := s.txns[t := Attempt(c, Active, NoOp, map[], map[])], clock := s.clock[c := s.clock[c] + 1])
  }

  ghost predicate ReadCheck(s: State, s': State, t: nat, k: Key) {
    && Running(s, t, k)
    && var a := s.txns[t];
    && a.op == NoOp && k !in a.rset && k !in a.wset
    && var pos := CheckRead(s.recs[k], t);
    && 0 <= pos
    && s' == PutTxn(s, t, a.(op := Checked(k, pos, s.recs[k].wts[pos])))
  }

  /** The loop that raises rts by compare-and-swap, at its successful round. */
  ghost predicate ReadBump(s: State, s': State, t: nat, k: Key) {
    && Running(s, t, k)
    && var a := s.txns[t];
    && a.op.Checked? && a.op.k == k
    && s' == PutBoth(s, t, a.(op := Bumped(k, a.op.pos, a.op.w)), k, s.recs[k].(rts := Max(s.recs[k].rts, t)))
  }

  ghost predicate ReadLoad(s: State, s': State, t: nat, k: Key) {
    && Running(s, t, k)
    && var a := s.txns[t];
    && a.op.Bumped? && a.op.k == k && a.op.pos < |s.recs[k].wts|
    && s' == PutTxn(s, t, a.(op := Copying(k, a.op.pos, a.op.w, s.recs[k].wts[a.op.pos], [], true)))
  }

  /** The n-th word of version w has been stored. */
  predicate WordStored(s: State, w: nat, k: Key, n: nat) {
    || w == INIT_WTS
    || (w in s.txns && k in s.txns[w].wset && s.txns[w].status == Committed
        && match s.txns[w].wset[k].stage
           case Held => false
           case Storing(words) => n < words
           case Unlocked => true)
  }

  ghost predicate ReadWord(s: State, s': State, t: nat, k: Key) {
    && Running(s, t, k)
    && var a := s.txns[t];
    && a.op.Copying? && a.op.k == k && a.op.pos < |s.recs[k].data| && |a.op.buf| < |s.recs[k].data[a.op.pos]|
    && s' == PutTxn(s, t, a.(op := a.op.(buf := a.op.buf + [s.recs[k].data[a.op.pos][|a.op.buf|]],
                                     whole := a.op.whole && WordStored(s, a.op.b, k, |a.op.buf|))))
  }

  ghost predicate ReadRecheck(s: State, s': State, t: nat, k: Key) {
    && Running(s, t, k)
    && var a := s.txns[t];
    && a.op.Copying? && a.op.k == k && a.op.pos < |s.recs[k].data| && |a.op.buf| == |s.recs[k].data[a.op.pos]|
    && CheckRead(s.recs[k], t) == a.op.pos
    && s.recs[k].wts[a.op.pos] == a.op.b
    && s' == PutTxn(s, t, a.(op := NoOp, rset := a.rset[k := ReadRec(a.op.b, a.op.w, a.op.buf, a.op.whole)]))
  }

  ghost predicate LockCheck(s: State, s': State, t: nat, k: Key) {
    && Running(s, t, k)
    && s.txns[t].op == NoOp && k !in s.txns[t].wset
    && CheckWrite(s.recs[k], t) == 0
    && s' == PutTxn(s, t, s.txns[t].(op := WriteChecked(k)))
  }

  ghost predicate LockLoad(s: State, s': State, t: nat, k: Key) {
    && Running(s, t, k)
    && s.txns[t].op == WriteChecked(k)
    && s.recs[k].lock <= t
    && s' == PutTxn(s, t, s.txns[t].(op := LockSeen(k)))
  }

  ghost predicate LockCas(s: State, s': State, t: nat, k: Key) {
    && Running(s, t, k)
    && s.txns[t].op == LockSeen(k)
    && s.recs[k].lock == 0
    && s' == PutBoth(s, t, s.txns[t].(op := Locked(k)), k, s.recs[k].(lock := t))
  }

  /** The second check, under the lock; nobody else stores to the slots while it is held. */
  ghost predicate LockRecheck(s: State, s': State, t: nat, k: Key) {
    && Running(s, t, k)
    && var a := s.txns[t];
    && var rec := s.recs[k];
    && a.op == Locked(k)
    && rec.rts <= t && MaxWts(rec.wts) <= t
    && 0 <= MinSlot(rec.wts) && 0 <= MaxSlot(rec.wts) < |rec.data|
    && var cur := rec.data[MaxSlot(rec.wts)];
    && s' == PutTxn(s, t, a.(op := NoOp,
                             wset := a.wset[k := WriteRec(MinSlot(rec.wts), MaxWts(rec.wts), cur, cur, Held)]))
  }

  /** Either recheck under the lock fails: unlock, abort, and remember the blocking timestamp. */
  ghost predicate LockRefuse(s: State, s': State, t: nat, k: Key, blocker: nat) {
    && Running(s, t, k)
    && s.txns[t].op == Locked(k)
    && t < blocker && (blocker == s.recs[k].rts || blocker == MaxWts(s.recs[k].wts))
    && s' == PutBoth(s, t, s.txns[t].(op := NoOp, status := Aborted), k, s.recs[k].(lock := 0))
                .(clock := s.clock[s.txns[t].cor := blocker / 1024])
  }

  /** A check before the lock fails and names a later timestamp, which moves the counter forward. */
  ghost predicate AbortBlocked(s: State, s': State, t: nat, k: Key, blocker: nat) {
    && Running(s, t, k)
    && !s.txns[t].op.Locked?
    && t < blocker && (blocker == CheckWrite(s.recs[k], t) || blocker == s.recs[k].lock)
    && s' == PutTxn(s, t, s.txns[t].(op := NoOp, status := Aborted))
                .(clock := s.clock[s.txns[t].cor := blocker / 1024])
  }

  /** Any other abort: a failed read, a failed compare-and-swap, or the application's own choice. */
  ghost predicate Abort(s: State, s': State, t: nat) {
    && t in s.txns && s.txns[t].status == Active && !s.txns[t].op.Locked?
    && s' == PutTxn(s, t, s.txns[t].(op := NoOp, status := Aborted))
  }

  function Seal(wset: map<Key, WriteRec>, vals: map<Key, Value>): map<Key, WriteRec>
    requires vals.Keys == wset.Keys
  {
    map k | k in wset :: wset[k].(val := vals[k])
  }

  /** commit: the write set gets its final values; nothing can fail after this. */
  ghost predicate Commit(s: State, s': State, t: nat, vals: map<Key, Value>) {
    && t in s.txns && s.txns[t].status == Active && s.txns[t].op == NoOp
    && vals.Keys == s.txns[t].wset.Keys
    && (forall k | k in vals :: |vals[k]| == |s.txns[t].wset[k].baseVal|)
    && s' == PutTxn(s, t, s.txns[t].(status := Committed, wset := Seal(s.txns[t].wset, vals)))
  }

  predicate Installing(s: State, t: nat, k: Key) {
    t in s.txns && s.txns[t].status == Committed && k in s.txns[t].wset && k in s.recs
  }

  function SetStage(a: Attempt, k: Key, stage: Stage): Attempt
    requires k in a.wset
  {
    a.(wset := a.wset[k := a.wset[k].(stage := stage)])
  }

  ghost predicate StoreWts(s: State, s': State, t: nat, k: Key) {
    && Installing(s, t, k)
    && var a := s.txns[t];
    && var rec := s.recs[k];
    && a.wset[k].stage == Held && a.wset[k].pos < |rec.wts|
    && s' == PutBoth(s, t, SetStage(a, k, Storing(0)), k, rec.(wts := rec.wts[a.wset[k].pos := t]))
  }

  ghost predicate StoreWord(s: State, s': State, t: nat, k: Key) {
    && Installing(s, t, k)
    && var a := s.txns[t];
    && var rec := s.recs[k];
    && var wr := a.wset[k];
    && wr.stage.Storing? && wr.pos < |rec.data| && wr.stage.words < |wr.val| && wr.stage.words < |rec.data[wr.pos]|
    && s' == PutBoth(s, t, SetStage(a, k, Storing(wr.stage.words + 1)), k,
                     rec.(data := rec.data[wr.pos := rec.data[wr.pos][wr.stage.words := wr.val[wr.stage.words]]]))
  }

  ghost predicate StoreDone(s: State, s': State, t: nat, k: Key) {
    && Installing(s, t, k)
    && s.txns[t].wset[k].stage == Storing(|s.txns[t].wset[k].val|)
    && s' == PutBoth(s, t, SetStage(s.txns[t], k, Unlocked), k, s.recs[k].(lock := 0))
  }

  ghost predicate Release(s: State, s': State, t: nat, k: Key) {
    && t in s.txns && s.txns[t].status == Aborted && k in s.txns[t].wset && k in s.recs
    && s.txns[t].wset[k].stage == Held
    && s' == PutBoth(s, t, SetStage(s.txns[t], k, Unlocked), k, s.recs[k].(lock := 0))
  }

  datatype Step =
    | BeginStep(c: Cor, t: nat)
    | ReadCheckStep(t: nat, k: Key)
    | ReadBumpStep(t: nat, k: Key)
    | ReadLoadStep(t: nat, k: Key)
    | ReadWordStep(t: nat, k: Key)
    | ReadRecheckStep(t: nat, k: Key)
    | LockCheckStep(t: nat, k: Key)
    | LockLoadStep(t: nat, k: Key)
    | LockCasStep(t: nat, k: Key)
    | LockRecheckStep(t: nat, k: Key)
    | LockRefuseStep(t: nat, k: Key, blocker: nat)
    | AbortBlockedStep(t: nat, k: Key, blocker: nat)
    | AbortStep(t: nat)
    | CommitStep(t: nat, vals: map<Key, Value>)
    | StoreWtsStep(t: nat, k: Key)
    | StoreWordStep(t: nat, k: Key)
    | StoreDoneStep(t: nat, k: Key)
    | ReleaseStep(t: nat, k: Key)

  ghost predicate NextBy(s: State, s': State, step: Step) {
    match step
    case BeginStep(c, t) => Begin(s, s', c, t)
    case ReadCheckStep(t, k) => ReadCheck(s, s', t, k)
    case ReadBumpStep(t, k) => ReadBump(s, s', t, k)
    case ReadLoadStep(t, k) => ReadLoad(s, s', t, k)
    case ReadWordStep(t, k) => ReadWord(s, s', t, k)
    case ReadRecheckStep(t, k) => ReadRecheck(s, s', t, k)
    case LockCheckStep(t, k) => LockCheck(s, s', t, k)
    case LockLoadStep(t, k) => LockLoad(s, s', t, k)
    case LockCasStep(t, k) => LockCas(s, s', t, k)
    case LockRecheckStep(t, k) => LockRecheck(s, s', t, k)
    case LockRefuseStep(t, k, blocker) => LockRefuse(s, s', t, k, blocker)
    case AbortBlockedStep(t, k, blocker) => AbortBlocked(s, s', t, k, blocker)
    case AbortStep(t) => Abort(s, s', t)
    case CommitStep(t, vals) => Commit(s, s', t, vals)
    case StoreWtsStep(t, k) => StoreWts(s, s', t, k)
    case StoreWordStep(t, k) => StoreWord(s, s', t, k)
    case StoreDoneStep(t, k) => StoreDone(s, s', t, k)
    case ReleaseStep(t, k) => Release(s, s', t, k)
  }

  ghost predicate Next(s: State, s': State) {
    exists step :: NextBy(s, s', step)
  }

  ghost predicate StepAt(run: seq<State>, i: nat)
    requires i + 1 < |run|
  {
    Next(run[i], run[i + 1])
  }

  /** A run: consecutive states are related by Next. */
  ghost predicate Run(run: seq<State>) {
    run != [] && Init(run[0]) && forall i | 0 <= i < |run| - 1 :: StepAt(run, i)
  }
}
