/** What every step of the optimistic protocol keeps. */
module OccSafety {
  import opened Occ

  // ---------------------------------------------------------------------------------------------
  // The invariant
  // ---------------------------------------------------------------------------------------------

  predicate Writes(s: State, id: nat, k: Key) {
    id in s.txns && k in s.txns[id].wset
  }

  /** The m-th value of record k: version 0 is the loader's, version m the m-th one installed. */
  ghost function Ver(s: State, k: Key, m: nat): Value
    requires k in s.recs
  {
    if m == 0 then (if k in s.init then s.init[k] else [])
    else if m <= |s.recs[k].hist| && Writes(s, s.recs[k].hist[m - 1], k) then s.txns[s.recs[k].hist[m - 1]].wset[k].val
    else []
  }

  ghost function Point(s: State, id: nat): nat {
    if id in s.txns then s.txns[id].lockPoint else 0
  }

  /** The transaction run by the coroutine in k's lock word. */
  predicate HasHolder(s: State, k: Key) {
    k in s.recs && s.recs[k].lock != 0 && s.recs[k].lock in s.cur && s.cur[s.recs[k].lock] in s.txns
  }

  function Holder(s: State, k: Key): nat
    requires HasHolder(s, k)
  {
    s.cur[s.recs[k].lock]
  }

  ghost function HolderPoint(s: State, k: Key): nat {
    if HasHolder(s, k) then Point(s, Holder(s, k)) else 0
  }

  predicate Overwriting(s: State, k: Key) {
    HasHolder(s, k) && Writes(s, Holder(s, k), k) && s.txns[Holder(s, k)].wset[k].stage.Flagged?
  }

  ghost predicate WordsOk(s: State, k: Key)
    requires k in s.recs
  {
    var rec := s.recs[k];
    var n := |rec.hist|;
    && |rec.words| == |Ver(s, k, n)|
    && if Overwriting(s, k) then
         var w := s.txns[Holder(s, k)].wset[k];
         && rec.seqno == CONFLICT_WRITE_FLAG && w.stage.last == 2 * n
         && w.stage.words <= |w.val| == |rec.words|
         && rec.words[..w.stage.words] == w.val[..w.stage.words]
       else rec.seqno == 2 * n && rec.words == Ver(s, k, n)
  }

  /** Backup b has applied a write to k that the primary has not yet installed. */
  predicate Ahead(s: State, k: Key, b: Node) {
    && HasHolder(s, k) && Writes(s, Holder(s, k), k) && (b, k) in s.txns[Holder(s, k)].acked
    && (s.txns[Holder(s, k)].wset[k].stage.Verified? || s.txns[Holder(s, k)].wset[k].stage.Flagged?)
  }

  ghost predicate BackupOk(s: State, k: Key, b: Node)
    requires k in s.recs && b in s.recs[k].backup
  {
    var rec := s.recs[k];
    rec.backup[b] == if Ahead(s, k, b) then Backup(s.txns[Holder(s, k)].wset[k].val, rec.hist + [Holder(s, k)])
                     else Backup(Ver(s, k, |rec.hist|), rec.hist)
  }

  ghost predicate HistOk(s: State, k: Key, i: nat)
    requires k in s.recs && i < |s.recs[k].hist|
  {
    var id := s.recs[k].hist[i];
    && Writes(s, id, k) && Committed(s.txns[id]) && (s.txns[id].wset[k].stage.Stored? || s.txns[id].wset[k].stage.Unlocked?)
    && 0 < Point(s, id) && s.txns[id].wset[k].seqno == 2 * i
    && forall j | i < j < |s.recs[k].hist| :: Point(s, id) < Point(s, s.recs[k].hist[j])
  }

  ghost predicate RecOk(s: State, k: Key)
    requires k in s.recs
  {
    var rec := s.recs[k];
    && k in s.init && |rec.words| == |s.init[k]|
    && (rec.lock != 0 ==> HasHolder(s, k) && Holds(s.txns[Holder(s, k)], k) && s.txns[Holder(s, k)].cor == rec.lock)
    && WordsOk(s, k)
    && (forall i {:trigger HistOk(s, k, i)} | 0 <= i < |rec.hist| :: HistOk(s, k, i))
    && (forall b {:trigger BackupOk(s, k, b)} | b in rec.backup :: BackupOk(s, k, b))
  }

  /** Every version of k up to m was locked before point p. */
  ghost predicate LockedBefore(s: State, k: Key, m: nat, p: nat)
    requires k in s.recs && m <= |s.recs[k].hist|
  {
    forall j | 0 <= j < m :: Point(s, s.recs[k].hist[j]) < p
  }

  /** Every version of k from m on, including one that is locked now, comes after point p. */
  ghost predicate LockedAfter(s: State, k: Key, m: nat, p: nat)
    requires k in s.recs
  {
    && (forall j | m <= j < |s.recs[k].hist| :: p < Point(s, s.recs[k].hist[j]))
    && (HolderPoint(s, k) == 0 || p < HolderPoint(s, k))
  }

  ghost predicate ReadOk(s: State, id: nat, i: nat)
    requires id in s.txns && i < |s.txns[id].rset| && s.txns[id].rset[i].k in s.recs
  {
    var item := s.txns[id].rset[i];
    var m := item.seqno / 2;
    && item.seqno == 2 * m && m <= |s.recs[item.k].hist| && item.val == Ver(s, item.k, m)
    && (0 < Point(s, id) ==> LockedBefore(s, item.k, m, Point(s, id)))
    && (item.check.Valid? ==> item.k !in s.txns[id].wset)
    && (item.check == Valid(true) ==> LockedAfter(s, item.k, m, Point(s, id)))
  }

  ghost predicate WriteOk(s: State, id: nat, k: Key)
    requires Writes(s, id, k) && k in s.recs
  {
    var t := s.txns[id];
    var w := t.wset[k];
    var rec := s.recs[k];
    var m := w.seqno / 2;
    && k in s.init && |w.val| == |w.base| == |s.init[k]|
    && w.seqno == 2 * m && m <= |rec.hist| && w.base == Ver(s, k, m)
    && (w.stage.Verified? || w.stage.Flagged? ==>
          m == |rec.hist| && (0 < Point(s, id) ==> LockedBefore(s, k, m, Point(s, id))))
    && (w.stage.Stored? || (w.stage.Unlocked? && Committed(t)) ==> m < |rec.hist| && rec.hist[m] == id)
    && (w.stage.Stored? ==> m + 1 == |rec.hist|)
    && (t.phase.Installing? && (w.stage.Verified? || w.stage.Flagged?) ==> forall b | b in rec.backup :: (b, k) in t.acked)
  }

  ghost predicate OpOk(s: State, id: nat, k: Key)
    requires id in s.txns && k in s.recs
  {
    var op := s.txns[id].op;
    var rec := s.recs[k];
    op.Copying? && op.k == k ==>
      && (op.forWrite ==> k !in s.txns[id].wset)
      && |op.buf| <= |rec.words|
      && (op.first == CONFLICT_WRITE_FLAG || (op.first % 2 == 0 && op.first <= 2 * |rec.hist|))
      && (op.first == rec.seqno && op.first != CONFLICT_WRITE_FLAG ==> op.buf == rec.words[..|op.buf|])
  }

  ghost predicate TxnKeyOk(s: State, id: nat, k: Key)
    requires id in s.txns && k in s.recs
  {
    && (Holds(s.txns[id], k) ==> s.recs[k].lock == s.txns[id].cor)
    && OpOk(s, id, k)
    && (k in s.txns[id].wset ==> WriteOk(s, id, k))
    && (forall i {:trigger ReadOk(s, id, i)} | 0 <= i < |s.txns[id].rset| && s.txns[id].rset[i].k == k :: ReadOk(s, id, i))
  }

  /** Which stages a write item can be in, by the phase of its transaction. */
  predicate StageFits(phase: Phase, stage: Stage) {
    match phase
    case Executing => stage.Free?
    case Locking => stage.Free? || stage.Swapped? || stage.Verified?
    case Validating => stage.Verified?
    case Logging => stage.Verified?
    case Installing => stage.Verified? || stage.Flagged? || stage.Stored? || stage.Unlocked?
    case Done => stage.Unlocked?
    case Aborting => stage.Free? || stage.Swapped? || stage.Verified? || stage.Unlocked?
    case Dead => stage.Unlocked?
  }

  ghost predicate TxnOk(s: State, id: nat)
    requires id in s.txns
  {
    var t := s.txns[id];
    && t.cor != 0 && t.lockPoint <= s.clock
    && (!Over(t) ==> t.cor in s.cur && s.cur[t.cor] == id)
    && (t.op.Copying? ==> t.phase.Executing? && t.op.k in s.recs)
    && t.wset.Keys <= s.recs.Keys
    && (forall k | k in t.wset :: StageFits(t.phase, t.wset[k].stage))
    && (t.phase.Executing? || t.phase.Locking? ==> t.lockPoint == 0)
    && (t.phase.Validating? || Committed(t) ==> 0 < t.lockPoint)
    && (t.acked != {} ==> Committed(t))
    && (forall i | 0 <= i < |t.rset| :: t.rset[i].k in s.recs
          && (t.rset[i].check != Unchecked ==> 0 < t.lockPoint) && (Committed(t) ==> t.rset[i].check.Valid?))
  }

  ghost predicate PointsDiffer(s: State, a: nat, b: nat) {
    a != b && 0 < Point(s, a) ==> Point(s, a) != Point(s, b)
  }

  ghost predicate KeyInv(s: State, k: Key)
    requires k in s.recs
  {
    RecOk(s, k) && forall id {:trigger TxnKeyOk(s, id, k)} | id in s.txns :: TxnKeyOk(s, id, k)
  }

  ghost predicate Inv(s: State) {
    && s.recs.Keys == s.init.Keys
    && (forall c | c in s.cur :: s.cur[c] in s.txns && s.txns[s.cur[c]].cor == c)
    && (forall id {:trigger TxnOk(s, id)} | id in s.txns :: TxnOk(s, id))
    && (forall a, b {:trigger PointsDiffer(s, a, b)} :: PointsDiffer(s, a, b))
    && (forall k {:trigger KeyInv(s, k)} | k in s.recs :: KeyInv(s, k))
  }

  lemma Known(s: State, id: nat, k: Key)
    requires Inv(s) && id in s.txns && k in s.recs
    ensures KeyInv(s, k) && RecOk(s, k) && TxnKeyOk(s, id, k) && TxnOk(s, id)
  {
    assert KeyInv(s, k);
  }

  lemma InitInv(s: State)
    requires Init(s)
    ensures Inv(s)
  {
    forall k | k in s.recs ensures KeyInv(s, k) {
      assert InitRecord(s.recs[k], s.init[k]);
    }
  }

  // ---------------------------------------------------------------------------------------------
  // Frames
  // ---------------------------------------------------------------------------------------------

  /** As far as record k is concerned, b is a with nothing new. */
  ghost predicate SameOn(a: Txn, b: Txn, k: Key) {
    && a.phase == b.phase && a.cor == b.cor && a.lockPoint == b.lockPoint
    && (k in a.wset <==> k in b.wset) && (k in a.wset ==> a.wset[k] == b.wset[k])
    && (forall n :: (n, k) in a.acked <==> (n, k) in b.acked)
    && (forall i | 0 <= i < |b.rset| && b.rset[i].k == k :: i < |a.rset| && a.rset[i] == b.rset[i])
  }

  predicate Elsewhere(op: Op, k: Key) {
    op == NoOp || op.k != k
  }

  predicate SameOp(a: Op, b: Op, k: Key) {
    a == b || Elsewhere(b, k)
  }

  /** The installed versions of k and their lock points are the same. */
  ghost predicate HistKept(s: State, s': State, k: Key) {
    && k in s.recs && k in s'.recs && s'.init == s.init && s'.recs[k].hist == s.recs[k].hist
    && forall id | id in s.recs[k].hist && Writes(s, id, k) ::
         Writes(s', id, k) && s'.txns[id].wset[k].val == s.txns[id].wset[k].val && Point(s', id) == Point(s, id)
  }

  lemma VersKept(s: State, s': State, k: Key, m: nat)
    requires HistKept(s, s', k) && RecOk(s, k) && m <= |s.recs[k].hist|
    ensures Ver(s', k, m) == Ver(s, k, m)
  {
    if 0 < m { assert HistOk(s, k, m - 1); }
  }

  lemma PointsKept(s: State, s': State, k: Key)
    requires HistKept(s, s', k) && RecOk(s, k)
    ensures forall j | 0 <= j < |s.recs[k].hist| :: Point(s', s.recs[k].hist[j]) == Point(s, s.recs[k].hist[j])
  {
    forall j | 0 <= j < |s.recs[k].hist| ensures Point(s', s.recs[k].hist[j]) == Point(s, s.recs[k].hist[j]) {
      assert HistOk(s, k, j);
    }
  }

  /** A read item survives, provided a new holder of the record locks later than everybody so far. */
  lemma ReadFrame(s: State, s': State, id: nat, i: nat, k: Key)
    requires id in s.txns && id in s'.txns && i < |s.txns[id].rset| && i < |s'.txns[id].rset|
    requires s.txns[id].rset[i] == s'.txns[id].rset[i] && s.txns[id].rset[i].k == k && k in s.recs && ReadOk(s, id, i)
    requires HistKept(s, s', k) && RecOk(s, k)
    requires Point(s', id) == Point(s, id) && (k in s'.txns[id].wset ==> k in s.txns[id].wset)
    requires HolderPoint(s', k) == HolderPoint(s, k) || HolderPoint(s', k) == 0 || Point(s', id) < HolderPoint(s', k)
    ensures ReadOk(s', id, i)
  {
    VersKept(s, s', k, s.txns[id].rset[i].seqno / 2);
    PointsKept(s, s', k);
  }

  lemma WriteFrame(s: State, s': State, id: nat, k: Key)
    requires Writes(s, id, k) && Writes(s', id, k) && k in s.recs && SameOn(s.txns[id], s'.txns[id], k)
    requires HistKept(s, s', k) && RecOk(s, k) && s'.recs[k].backup.Keys == s.recs[k].backup.Keys && WriteOk(s, id, k)
    ensures WriteOk(s', id, k)
  {
    VersKept(s, s', k, s.txns[id].wset[k].seqno / 2);
    PointsKept(s, s', k);
  }

  lemma TxnKeyFrame(s: State, s': State, id: nat, k: Key)
    requires id in s.txns && id in s'.txns && k in s.recs && SameOn(s.txns[id], s'.txns[id], k)
    requires SameOp(s.txns[id].op, s'.txns[id].op, k)
    requires HistKept(s, s', k) && RecOk(s, k) && s'.recs[k].backup.Keys == s.recs[k].backup.Keys
    requires |s'.recs[k].words| == |s.recs[k].words|
    requires (s'.recs[k].seqno == s.recs[k].seqno && s'.recs[k].words == s.recs[k].words) || s'.recs[k].seqno == CONFLICT_WRITE_FLAG
    requires s'.recs[k].lock == s.recs[k].lock || !Holds(s.txns[id], k)
    requires HolderPoint(s', k) == HolderPoint(s, k) || HolderPoint(s', k) == 0 || Point(s', id) < HolderPoint(s', k)
    requires TxnKeyOk(s, id, k)
    ensures TxnKeyOk(s', id, k)
  {
    if k in s.txns[id].wset { WriteFrame(s, s', id, k); }
    forall i | 0 <= i < |s'.txns[id].rset| && s'.txns[id].rset[i].k == k ensures ReadOk(s', id, i) {
      assert ReadOk(s, id, i);
      ReadFrame(s, s', id, i, k);
    }
  }

  /** Nothing about record k changed. */
  ghost predicate Untouched(s: State, s': State, k: Key) {
    && k in s.recs && k in s'.recs && s'.recs[k] == s.recs[k] && s'.init == s.init && s'.cur == s.cur
    && s.txns.Keys == s'.txns.Keys
    && forall id | id in s.txns :: SameOn(s.txns[id], s'.txns[id], k) && SameOp(s.txns[id].op, s'.txns[id].op, k)
  }

  lemma RecUntouched(s: State, s': State, k: Key)
    requires Untouched(s, s', k) && RecOk(s, k)
    ensures RecOk(s', k)
  {
    VersKept(s, s', k, |s.recs[k].hist|);
    PointsKept(s, s', k);
    forall i | 0 <= i < |s'.recs[k].hist| ensures HistOk(s', k, i) { assert HistOk(s, k, i); }
    forall b | b in s'.recs[k].backup ensures BackupOk(s', k, b) { assert BackupOk(s, k, b); }
  }

  lemma UntouchedKey(s: State, s': State, k: Key)
    requires Untouched(s, s', k) && KeyInv(s, k)
    ensures KeyInv(s', k)
  {
    RecUntouched(s, s', k);
    forall id | id in s'.txns ensures TxnKeyOk(s', id, k) {
      assert TxnKeyOk(s, id, k);
      TxnKeyFrame(s, s', id, k);
    }
  }

  /** Every transaction other than id is as before. */
  ghost predicate OthersKept(s: State, s': State, id: nat) {
    && s'.init == s.init && s'.txns.Keys == s.txns.Keys && id in s.txns
    && forall x | x in s.txns && x != id :: s'.txns[x] == s.txns[x]
  }

  lemma NotInstalled(s: State, id: nat, k: Key)
    requires k in s.recs && RecOk(s, k) && id in s.txns && !Committed(s.txns[id])
    ensures id !in s.recs[k].hist
  {
    forall i | 0 <= i < |s.recs[k].hist| ensures s.recs[k].hist[i] != id { assert HistOk(s, k, i); }
  }

  /** A step of an uncommitted transaction that leaves record k itself alone. */
  lemma RecKept(s: State, s': State, id: nat, k: Key)
    requires k in s.recs && k in s'.recs && s'.recs[k] == s.recs[k] && s'.cur == s.cur && OthersKept(s, s', id)
    requires !Committed(s.txns[id]) && s.txns[id].acked == {} == s'.txns[id].acked && s.txns[id].cor == s'.txns[id].cor
    requires Holds(s.txns[id], k) == Holds(s'.txns[id], k)
    requires k in s.txns[id].wset ==> !s.txns[id].wset[k].stage.Flagged?
    requires k in s'.txns[id].wset ==> !s'.txns[id].wset[k].stage.Flagged?
    requires RecOk(s, k)
    ensures RecOk(s', k) && HistKept(s, s', k)
  {
    NotInstalled(s, id, k);
    VersKept(s, s', k, |s.recs[k].hist|);
    PointsKept(s, s', k);
    forall i | 0 <= i < |s'.recs[k].hist| ensures HistOk(s', k, i) { assert HistOk(s, k, i); }
    forall b | b in s'.recs[k].backup ensures BackupOk(s', k, b) { assert BackupOk(s, k, b); }
  }

  /** What the other transactions know about k survives. */
  lemma OthersOk(s: State, s': State, id: nat, k: Key)
    requires Inv(s) && OthersKept(s, s', id) && k in s.recs && HistKept(s, s', k)
    requires s'.recs[k].backup.Keys == s.recs[k].backup.Keys && |s'.recs[k].words| == |s.recs[k].words|
    requires (s'.recs[k].seqno == s.recs[k].seqno && s'.recs[k].words == s.recs[k].words) || s'.recs[k].seqno == CONFLICT_WRITE_FLAG
    requires s'.recs[k].lock == s.recs[k].lock || s.recs[k].lock == 0 || (HasHolder(s, k) && Holder(s, k) == id)
    requires HolderPoint(s', k) == HolderPoint(s, k) || HolderPoint(s', k) == 0 || s.clock < HolderPoint(s', k)
    ensures forall x | x in s'.txns && x != id :: TxnKeyOk(s', x, k)
  {
    forall x | x in s'.txns && x != id ensures TxnKeyOk(s', x, k) {
      Known(s, x, k);
      TxnKeyFrame(s, s', x, k);
    }
  }

  // ---------------------------------------------------------------------------------------------
  // Steps of one transaction on one record
  // ---------------------------------------------------------------------------------------------

  ghost predicate LocalTo(s: State, s': State, id: nat, k: Key) {
    && k in s.recs && k in s'.recs && id in s.txns && id in s'.txns
    && s'.init == s.init && s'.cur == s.cur && s'.clock == s.clock
    && s'.recs == s.recs[k := s'.recs[k]]
    && s'.txns == s.txns[id := s'.txns[id]]
    && s'.txns[id].lockPoint == s.txns[id].lockPoint && s'.txns[id].cor == s.txns[id].cor
    && (s.txns[id].op == NoOp || s.txns[id].op.k == k) && (s'.txns[id].op == NoOp || s'.txns[id].op.k == k)
    && forall j | j != k :: SameOn(s.txns[id], s'.txns[id], j)
  }

  lemma TxnFrame(s: State, s': State, x: nat)
    requires x in s.txns && x in s'.txns && s'.txns[x] == s.txns[x] && TxnOk(s, x)
    requires s'.recs.Keys == s.recs.Keys && s.clock <= s'.clock
    requires !Over(s.txns[x]) ==> s.txns[x].cor in s'.cur && s'.cur[s.txns[x].cor] == x
    ensures TxnOk(s', x)
  {
  }

  lemma LocalElsewhere(s: State, s': State, id: nat, k: Key, j: Key)
    requires LocalTo(s, s', id, k) && j in s.recs && j != k && KeyInv(s, j)
    ensures j in s'.recs && KeyInv(s', j)
  {
    assert Untouched(s, s', j);
    UntouchedKey(s, s', j);
  }

  lemma LocalInv(s: State, s': State, id: nat, k: Key)
    requires Inv(s) && LocalTo(s, s', id, k) && KeyInv(s', k) && TxnOk(s', id)
    ensures Inv(s')
  {
    forall x | x in s'.txns ensures TxnOk(s', x) {
      assert TxnOk(s, x);
      if x != id { TxnFrame(s, s', x); }
    }
    forall a, b ensures PointsDiffer(s', a, b) { assert PointsDiffer(s, a, b); }
    forall j | j in s'.recs ensures KeyInv(s', j) {
      assert KeyInv(s, j);
      if j != k { LocalElsewhere(s, s', id, k, j); }
    }
  }

  /** A transaction's own items on k survive when it changes neither them nor the record. */
  lemma OwnReads(s: State, s': State, id: nat, k: Key)
    requires id in s.txns && k in s.recs && TxnKeyOk(s, id, k) && RecOk(s, k) && HistKept(s, s', k) && id in s'.txns
    requires Point(s', id) == Point(s, id) && (k in s'.txns[id].wset ==> k in s.txns[id].wset)
    requires HolderPoint(s', k) == HolderPoint(s, k)
    requires s'.txns[id].rset == s.txns[id].rset
    ensures forall i | 0 <= i < |s'.txns[id].rset| && s'.txns[id].rset[i].k == k :: ReadOk(s', id, i)
  {
    forall i | 0 <= i < |s'.txns[id].rset| && s'.txns[id].rset[i].k == k ensures ReadOk(s', id, i) {
      assert ReadOk(s, id, i);
      ReadFrame(s, s', id, i, k);
    }
  }

  lemma GetOpInv(s: State, s': State, id: nat, k: Key)
    requires Inv(s) && LocalTo(s, s', id, k) && s'.recs == s.recs && In(s, id, Executing)
    requires s'.txns[id] == s.txns[id].(op := s'.txns[id].op) && OpOk(s', id, k)
    ensures Inv(s')
  {
    Known(s, id, k);
    RecKept(s, s', id, k);
    OthersOk(s, s', id, k);
    OwnReads(s, s', id, k);
    if k in s.txns[id].wset { WriteFrame(s, s', id, k); }
    LocalInv(s, s', id, k);
  }

  lemma GetLoadInv(s: State, s': State, id: nat, k: Key, forWrite: bool)
    requires Inv(s) && GetLoad(s, s', id, k, forWrite)
    ensures Inv(s')
  {
    Known(s, id, k);
    GetOpInv(s, s', id, k);
  }

  lemma GetWordInv(s: State, s': State, id: nat, k: Key)
    requires Inv(s) && GetWord(s, s', id, k)
    ensures Inv(s')
  {
    Known(s, id, k);
    GetOpInv(s, s', id, k);
  }

  /** A value accepted by the final check is the record's current version, whole. */
  lemma AcceptedIsCurrent(s: State, s': State, id: nat, k: Key)
    requires Inv(s) && GetCheck(s, s', id, k)
    ensures s.txns[id].op.first == 2 * |s.recs[k].hist| && s.txns[id].op.buf == Ver(s, k, |s.recs[k].hist|)
  {
    Known(s, id, k);
  }

  lemma GetCheckOwn(s: State, s': State, id: nat, k: Key)
    requires Inv(s) && GetCheck(s, s', id, k) && HistKept(s, s', k)
    ensures TxnKeyOk(s', id, k)
  {
    Known(s, id, k);
    AcceptedIsCurrent(s, s', id, k);
    VersKept(s, s', k, |s.recs[k].hist|);
    forall i | 0 <= i < |s'.txns[id].rset| && s'.txns[id].rset[i].k == k ensures ReadOk(s', id, i) {
      if i < |s.txns[id].rset| {
        assert ReadOk(s, id, i);
        VersKept(s, s', k, s.txns[id].rset[i].seqno / 2);
      }
    }
    if k in s.txns[id].wset { VersKept(s, s', k, s.txns[id].wset[k].seqno / 2); }
  }

  lemma GetCheckInv(s: State, s': State, id: nat, k: Key)
    requires Inv(s) && GetCheck(s, s', id, k)
    ensures Inv(s')
  {
    Known(s, id, k);
    RecKept(s, s', id, k);
    OthersOk(s, s', id, k);
    GetCheckOwn(s, s', id, k);
    LocalInv(s, s', id, k);
  }

  lemma TryLockOwn(s: State, s': State, id: nat, k: Key)
    requires Inv(s) && TryLock(s, s', id, k) && HistKept(s, s', k)
    ensures TxnKeyOk(s', id, k)
  {
    Known(s, id, k);
    OwnReads(s, s', id, k);
    VersKept(s, s', k, s.txns[id].wset[k].seqno / 2);
  }

  lemma TryLockInv(s: State, s': State, id: nat, k: Key)
    requires Inv(s) && TryLock(s, s', id, k)
    ensures Inv(s')
  {
    Known(s, id, k);
    TryLockRec(s, s', id, k);
    OthersOk(s, s', id, k);
    TryLockOwn(s, s', id, k);
    LocalInv(s, s', id, k);
  }

  lemma TryLockRec(s: State, s': State, id: nat, k: Key)
    requires Inv(s) && TryLock(s, s', id, k)
    ensures RecOk(s', k) && HistKept(s, s', k)
  {
    Known(s, id, k);
    NotInstalled(s, id, k);
    VersKept(s, s', k, |s.recs[k].hist|);
    PointsKept(s, s', k);
    forall i | 0 <= i < |s'.recs[k].hist| ensures HistOk(s', k, i) { assert HistOk(s, k, i); }
    forall b | b in s'.recs[k].backup ensures BackupOk(s', k, b) { assert BackupOk(s, k, b); }
  }

  lemma LockVerifyInv(s: State, s': State, id: nat, k: Key)
    requires Inv(s) && LockVerify(s, s', id, k)
    ensures Inv(s')
  {
    Known(s, id, k);
    RecKept(s, s', id, k);
    OthersOk(s, s', id, k);
    OwnReads(s, s', id, k);
    VersKept(s, s', k, s.txns[id].wset[k].seqno / 2);
    LocalInv(s, s', id, k);
  }

  lemma ValidateOwn(s: State, s': State, id: nat, i: nat, k: Key)
    requires Inv(s) && (ValidateSeq(s, s', id, i) || ValidateLock(s, s', id, i)) && k == s.txns[id].rset[i].k
    requires HistKept(s, s', k)
    ensures TxnKeyOk(s', id, k)
  {
    Known(s, id, k);
    forall j | 0 <= j < |s'.txns[id].rset| && s'.txns[id].rset[j].k == k ensures ReadOk(s', id, j) {
      assert ReadOk(s, id, j);
      if j != i { ReadFrame(s, s', id, j, k); } else { ValidatedRead(s, s', id, i); }
    }
    if k in s.txns[id].wset { VersKept(s, s', k, s.txns[id].wset[k].seqno / 2); PointsKept(s, s', k); }
  }

  lemma ValidateInv(s: State, s': State, id: nat, i: nat)
    requires Inv(s) && (ValidateSeq(s, s', id, i) || ValidateLock(s, s', id, i))
    ensures Inv(s')
  {
    var k := s.txns[id].rset[i].k;
    assert TxnOk(s, id);
    Known(s, id, k);
    RecKept(s, s', id, k);
    OthersOk(s, s', id, k);
    ValidateOwn(s, s', id, i, k);
    LocalInv(s, s', id, k);
  }

  /** A clean validation finds the version that was read still current and unlocked, so that every
      later version will be locked after this transaction's lock point. */
  lemma ValidatedRead(s: State, s': State, id: nat, i: nat)
    requires Inv(s) && (ValidateSeq(s, s', id, i) || ValidateLock(s, s', id, i))
    ensures ReadOk(s', id, i)
  {
    var k := s.txns[id].rset[i].k;
    Known(s, id, k);
    assert ReadOk(s, id, i);
    assert HistKept(s, s', k);
    VersKept(s, s', k, s.txns[id].rset[i].seqno / 2);
    PointsKept(s, s', k);
  }

  // ---------------------------------------------------------------------------------------------
  // Backups
  // ---------------------------------------------------------------------------------------------

  /** A transaction with a locked item is the one named by the record's lock word. */
  lemma IsHolder(s: State, id: nat, k: Key)
    requires Inv(s) && id in s.txns && k in s.recs && Holds(s.txns[id], k)
    ensures HasHolder(s, k) && Holder(s, k) == id && s.recs[k].lock == s.txns[id].cor
  {
    Known(s, id, k);
  }

  lemma ApplyRec(s: State, s': State, id: nat, b: Node, k: Key)
    requires Inv(s) && Apply(s, s', id, b, k)
    ensures RecOk(s', k) && HistKept(s, s', k)
  {
    Known(s, id, k);
    IsHolder(s, id, k);
    VersKept(s, s', k, |s.recs[k].hist|);
    PointsKept(s, s', k);
    forall i | 0 <= i < |s'.recs[k].hist| ensures HistOk(s', k, i) { assert HistOk(s, k, i); }
    forall a | a in s'.recs[k].backup ensures BackupOk(s', k, a) { assert BackupOk(s, k, a); }
  }

  lemma ApplyOwn(s: State, s': State, id: nat, b: Node, k: Key)
    requires Inv(s) && Apply(s, s', id, b, k) && HistKept(s, s', k)
    ensures TxnKeyOk(s', id, k)
  {
    Known(s, id, k);
    OwnReads(s, s', id, k);
    VersKept(s, s', k, s.txns[id].wset[k].seqno / 2);
    PointsKept(s, s', k);
  }

  lemma ApplyInv(s: State, s': State, id: nat, b: Node, k: Key)
    requires Inv(s) && Apply(s, s', id, b, k)
    ensures Inv(s')
  {
    Known(s, id, k);
    ApplyRec(s, s', id, b, k);
    OthersOk(s, s', id, k);
    ApplyOwn(s, s', id, b, k);
    LocalInv(s, s', id, k);
  }

  // ---------------------------------------------------------------------------------------------
  // Installing
  // ---------------------------------------------------------------------------------------------

  /** The holder overwrites the value: it raises the flag, or stores one more word. */
  lemma StoreRec(s: State, s': State, id: nat, k: Key)
    requires Inv(s) && (StoreFlag(s, s', id, k) || StoreWord(s, s', id, k))
    ensures RecOk(s', k) && HistKept(s, s', k)
  {
    Known(s, id, k);
    IsHolder(s, id, k);
    assert HistKept(s, s', k);
    VersKept(s, s', k, |s.recs[k].hist|);
    PointsKept(s, s', k);
    forall i | 0 <= i < |s'.recs[k].hist| ensures HistOk(s', k, i) { assert HistOk(s, k, i); }
    forall b | b in s'.recs[k].backup ensures BackupOk(s', k, b) { assert BackupOk(s, k, b); }
    if StoreWord(s, s', id, k) {
      var w := s.txns[id].wset[k];
      var n := w.stage.words;
      assert s'.recs[k].words[..n + 1] == s.recs[k].words[..n] + [w.val[n]] == w.val[..n + 1];
    }
  }

  lemma StoreOwn(s: State, s': State, id: nat, k: Key)
    requires Inv(s) && (StoreFlag(s, s', id, k) || StoreWord(s, s', id, k)) && HistKept(s, s', k)
    ensures TxnKeyOk(s', id, k)
  {
    Known(s, id, k);
    OwnReads(s, s', id, k);
    VersKept(s, s', k, s.txns[id].wset[k].seqno / 2);
    PointsKept(s, s', k);
  }

  lemma StoreFlagInv(s: State, s': State, id: nat, k: Key)
    requires Inv(s) && StoreFlag(s, s', id, k)
    ensures Inv(s')
  {
    Known(s, id, k);
    StoreRec(s, s', id, k);
    OthersOk(s, s', id, k);
    StoreOwn(s, s', id, k);
    LocalInv(s, s', id, k);
  }

  lemma StoreWordInv(s: State, s': State, id: nat, k: Key)
    requires Inv(s) && StoreWord(s, s', id, k)
    ensures Inv(s')
  {
    Known(s, id, k);
    IsHolder(s, id, k);
    StoreRec(s, s', id, k);
    OthersOk(s, s', id, k);
    StoreOwn(s, s', id, k);
    LocalInv(s, s', id, k);
  }

  /** The new version is the next one, and all the old ones are unchanged. */
  lemma StoreSeqVers(s: State, s': State, id: nat, k: Key)
    requires Inv(s) && StoreSeq(s, s', id, k)
    ensures forall m: nat | m <= |s.recs[k].hist| :: Ver(s', k, m) == Ver(s, k, m)
    ensures Ver(s', k, |s.recs[k].hist| + 1) == s.txns[id].wset[k].val
    ensures forall x :: Point(s', x) == Point(s, x)
  {
    Known(s, id, k);
    forall m: nat | m <= |s.recs[k].hist| ensures Ver(s', k, m) == Ver(s, k, m) {
      if 0 < m { assert HistOk(s, k, m - 1); }
    }
  }

  lemma StoreSeqRec(s: State, s': State, id: nat, k: Key)
    requires Inv(s) && StoreSeq(s, s', id, k)
    ensures RecOk(s', k)
  {
    Known(s, id, k);
    IsHolder(s, id, k);
    StoreSeqVers(s, s', id, k);
    var rec, w := s.recs[k], s.txns[id].wset[k];
    assert rec.words == rec.words[..|w.val|] == w.val[..|w.val|] == w.val;
    forall i | 0 <= i < |s'.recs[k].hist| ensures HistOk(s', k, i) {
      if i < |rec.hist| { assert HistOk(s, k, i); }
    }
    forall b | b in s'.recs[k].backup ensures BackupOk(s', k, b) { assert BackupOk(s, k, b); }
  }

  /** Other transactions that validated an older version locked before the installer did. */
  lemma StoreSeqOther(s: State, s': State, id: nat, x: nat, k: Key)
    requires Inv(s) && StoreSeq(s, s', id, k) && x in s.txns && x != id
    ensures TxnKeyOk(s', x, k)
  {
    Known(s, id, k);
    Known(s, x, k);
    IsHolder(s, id, k);
    StoreSeqVers(s, s', id, k);
    assert Holds(s.txns[x], k) ==> false by { if Holds(s.txns[x], k) { IsHolder(s, x, k); } }
    forall i | 0 <= i < |s'.txns[x].rset| && s'.txns[x].rset[i].k == k ensures ReadOk(s', x, i) {
      assert ReadOk(s, x, i);
    }
  }

  /** A committed transaction does not read what it writes. */
  lemma ReadsElsewhere(s: State, id: nat, k: Key)
    requires Inv(s) && Writes(s, id, k) && Committed(s.txns[id])
    ensures forall i | 0 <= i < |s.txns[id].rset| :: s.txns[id].rset[i].k != k
  {
    assert TxnOk(s, id);
    forall i | 0 <= i < |s.txns[id].rset| ensures s.txns[id].rset[i].k !in s.txns[id].wset {
      Known(s, id, s.txns[id].rset[i].k);
      assert ReadOk(s, id, i);
    }
  }

  lemma StoreSeqOwn(s: State, s': State, id: nat, k: Key)
    requires Inv(s) && StoreSeq(s, s', id, k)
    ensures TxnKeyOk(s', id, k)
  {
    Known(s, id, k);
    IsHolder(s, id, k);
    StoreSeqVers(s, s', id, k);
    ReadsElsewhere(s, id, k);
  }

  lemma StoreSeqInv(s: State, s': State, id: nat, k: Key)
    requires Inv(s) && StoreSeq(s, s', id, k)
    ensures Inv(s')
  {
    Known(s, id, k);
    StoreSeqRec(s, s', id, k);
    StoreSeqOwn(s, s', id, k);
    forall x | x in s'.txns ensures TxnKeyOk(s', x, k) { if x != id { StoreSeqOther(s, s', id, x, k); } }
    LocalInv(s, s', id, k);
  }

  /** The record becomes free: after the last store, or when an aborted transaction releases it. */
  lemma FreeRec(s: State, s': State, id: nat, k: Key)
    requires Inv(s) && (StoreUnlock(s, s', id, k) || Release(s, s', id, k))
    ensures RecOk(s', k) && HistKept(s, s', k)
  {
    Known(s, id, k);
    if Holds(s.txns[id], k) { IsHolder(s, id, k); }
    assert HistKept(s, s', k);
    VersKept(s, s', k, |s.recs[k].hist|);
    PointsKept(s, s', k);
    forall i | 0 <= i < |s'.recs[k].hist| ensures HistOk(s', k, i) { assert HistOk(s, k, i); }
    forall b | b in s'.recs[k].backup ensures BackupOk(s', k, b) { assert BackupOk(s, k, b); }
  }

  lemma FreeOwn(s: State, s': State, id: nat, k: Key)
    requires Inv(s) && (StoreUnlock(s, s', id, k) || Release(s, s', id, k)) && HistKept(s, s', k)
    ensures TxnKeyOk(s', id, k)
  {
    Known(s, id, k);
    VersKept(s, s', k, s.txns[id].wset[k].seqno / 2);
    PointsKept(s, s', k);
    forall i | 0 <= i < |s'.txns[id].rset| && s'.txns[id].rset[i].k == k ensures ReadOk(s', id, i) {
      assert ReadOk(s, id, i);
      ReadFrame(s, s', id, i, k);
    }
  }

  lemma StoreUnlockInv(s: State, s': State, id: nat, k: Key)
    requires Inv(s) && StoreUnlock(s, s', id, k)
    ensures Inv(s')
  {
    Known(s, id, k);
    IsHolder(s, id, k);
    FreeRec(s, s', id, k);
    OthersOk(s, s', id, k);
    FreeOwn(s, s', id, k);
    LocalInv(s, s', id, k);
  }

  lemma ReleaseInv(s: State, s': State, id: nat, k: Key)
    requires Inv(s) && Release(s, s', id, k)
    ensures Inv(s')
  {
    Known(s, id, k);
    FreeRec(s, s', id, k);
    OthersOk(s, s', id, k);
    FreeOwn(s, s', id, k);
    LocalInv(s, s', id, k);
  }

  // ---------------------------------------------------------------------------------------------
  // Steps of a whole transaction
  // ---------------------------------------------------------------------------------------------

  /** Only id's own state changed, and perhaps the clock. */
  ghost predicate WholeStep(s: State, s': State, id: nat) {
    && OthersKept(s, s', id) && id in s'.txns && s'.recs == s.recs && s'.cur == s.cur && s.clock <= s'.clock
    && s'.txns[id].cor == s.txns[id].cor && s'.txns[id].rset == s.txns[id].rset && s'.txns[id].wset.Keys == s.txns[id].wset.Keys
    && s'.txns[id].op == NoOp
  }

  lemma WholeInv(s: State, s': State, id: nat)
    requires Inv(s) && WholeStep(s, s', id) && TxnOk(s', id)
    requires Point(s', id) == Point(s, id) || s.clock < Point(s', id)
    requires forall k | k in s.recs :: RecOk(s', k) && HistKept(s, s', k) && TxnKeyOk(s', id, k)
    ensures Inv(s')
  {
    forall x | x in s'.txns ensures TxnOk(s', x) {
      assert TxnOk(s, x);
      if x != id { TxnFrame(s, s', x); }
    }
    forall a, b ensures PointsDiffer(s', a, b) {
      assert PointsDiffer(s, a, b);
      if a in s.txns && b in s.txns { assert TxnOk(s, a) && TxnOk(s, b); }
    }
    forall k | k in s'.recs ensures KeyInv(s', k) {
      assert KeyInv(s, k);
      WholeOthers(s, s', id, k);
    }
  }

  lemma WholeOthers(s: State, s': State, id: nat, k: Key)
    requires Inv(s) && WholeStep(s, s', id) && k in s.recs && HistKept(s, s', k)
    requires Point(s', id) == Point(s, id) || s.clock < Point(s', id)
    ensures forall x | x in s'.txns && x != id :: TxnKeyOk(s', x, k)
  {
    OthersOk(s, s', id, k);
  }

  /** The items keep what they were, when the lock point stays. */
  lemma WholeOwn(s: State, s': State, id: nat, k: Key)
    requires Inv(s) && WholeStep(s, s', id) && k in s.recs && HistKept(s, s', k)
    requires Point(s', id) == Point(s, id) && s'.txns[id].acked == s.txns[id].acked
    requires k in s.txns[id].wset ==>
               && s'.txns[id].wset[k].(val := s.txns[id].wset[k].val) == s.txns[id].wset[k]
               && |s'.txns[id].wset[k].val| == |s.txns[id].wset[k].base|
               && (s.txns[id].wset[k].stage.Unlocked? && Committed(s'.txns[id]) ==> Committed(s.txns[id]))
               && (s'.txns[id].phase.Installing? && (s.txns[id].wset[k].stage.Verified? || s.txns[id].wset[k].stage.Flagged?) ==>
                     forall b | b in s.recs[k].backup :: (b, k) in s.txns[id].acked)
    ensures TxnKeyOk(s', id, k)
  {
    Known(s, id, k);
    OwnReads(s, s', id, k);
    if k in s.txns[id].wset { VersKept(s, s', k, s.txns[id].wset[k].seqno / 2); PointsKept(s, s', k); }
  }

  lemma StartCommitInv(s: State, s': State, id: nat, vals: map<Key, Value>)
    requires Inv(s) && StartCommit(s, s', id, vals)
    ensures Inv(s')
  {
    assert TxnOk(s, id);
    forall k | k in s.recs ensures RecOk(s', k) && HistKept(s, s', k) && TxnKeyOk(s', id, k) {
      Known(s, id, k);
      RecKept(s, s', id, k);
      WholeOwn(s, s', id, k);
    }
    WholeInv(s, s', id);
  }

  /** At its lock point a transaction comes after everything installed so far. */
  lemma LockPointOwn(s: State, s': State, id: nat, k: Key)
    requires Inv(s) && LockPoint(s, s', id) && k in s.recs && HistKept(s, s', k)
    ensures TxnKeyOk(s', id, k)
  {
    Known(s, id, k);
    PointsKept(s, s', k);
    forall j | 0 <= j < |s.recs[k].hist| ensures Point(s, s.recs[k].hist[j]) <= s.clock {
      assert HistOk(s, k, j) && TxnOk(s, s.recs[k].hist[j]);
    }
    forall i | 0 <= i < |s'.txns[id].rset| && s'.txns[id].rset[i].k == k ensures ReadOk(s', id, i) {
      assert ReadOk(s, id, i);
      VersKept(s, s', k, s.txns[id].rset[i].seqno / 2);
    }
    if k in s.txns[id].wset { VersKept(s, s', k, s.txns[id].wset[k].seqno / 2); }
  }

  lemma LockPointTxn(s: State, s': State, id: nat)
    requires id in s.txns && TxnOk(s, id) && LockPoint(s, s', id)
    ensures WholeStep(s, s', id) && TxnOk(s', id)
  {
  }

  lemma LockPointInv(s: State, s': State, id: nat)
    requires Inv(s) && LockPoint(s, s', id)
    ensures Inv(s')
  {
    assert TxnOk(s, id);
    LockPointTxn(s, s', id);
    forall k | k in s.recs ensures RecOk(s', k) && HistKept(s, s', k) && TxnKeyOk(s', id, k) {
      Known(s, id, k);
      RecKept(s, s', id, k);
      LockPointOwn(s, s', id, k);
    }
    WholeInv(s, s', id);
  }

  lemma DecideTxn(s: State, s': State, id: nat)
    requires id in s.txns && TxnOk(s, id) && Decide(s, s', id)
    ensures WholeStep(s, s', id) && TxnOk(s', id)
  {
  }

  lemma DecideInv(s: State, s': State, id: nat)
    requires Inv(s) && Decide(s, s', id)
    ensures Inv(s')
  {
    assert TxnOk(s, id);
    DecideTxn(s, s', id);
    forall k | k in s.recs ensures RecOk(s', k) && HistKept(s, s', k) && TxnKeyOk(s', id, k) {
      Known(s, id, k);
      RecKept(s, s', id, k);
      WholeOwn(s, s', id, k);
    }
    WholeInv(s, s', id);
  }

  /** A committed transaction moves on to its next phase. */
  lemma PhaseRec(s: State, s': State, id: nat, k: Key)
    requires Inv(s) && WholeStep(s, s', id) && k in s.recs
    requires s'.txns[id] == s.txns[id].(phase := s'.txns[id].phase) && Committed(s.txns[id]) && Committed(s'.txns[id])
    ensures RecOk(s', k) && HistKept(s, s', k)
  {
    Known(s, id, k);
    assert HistKept(s, s', k);
    VersKept(s, s', k, |s.recs[k].hist|);
    PointsKept(s, s', k);
    forall i | 0 <= i < |s'.recs[k].hist| ensures HistOk(s', k, i) { assert HistOk(s, k, i); }
    forall b | b in s'.recs[k].backup ensures BackupOk(s', k, b) { assert BackupOk(s, k, b); }
  }

  lemma LogDoneTxn(s: State, s': State, id: nat)
    requires id in s.txns && TxnOk(s, id) && LogDone(s, s', id)
    ensures WholeStep(s, s', id) && TxnOk(s', id)
  {
  }

  lemma LogDoneInv(s: State, s': State, id: nat)
    requires Inv(s) && LogDone(s, s', id)
    ensures Inv(s')
  {
    assert TxnOk(s, id);
    LogDoneTxn(s, s', id);
    forall k | k in s.recs ensures RecOk(s', k) && HistKept(s, s', k) && TxnKeyOk(s', id, k) {
      Known(s, id, k);
      PhaseRec(s, s', id, k);
      WholeOwn(s, s', id, k);
    }
    WholeInv(s, s', id);
  }

  lemma FinishKey(s: State, s': State, id: nat, k: Key)
    requires Inv(s) && Finish(s, s', id) && k in s.recs
    ensures RecOk(s', k) && HistKept(s, s', k) && TxnKeyOk(s', id, k)
  {
    Known(s, id, k);
    PhaseRec(s, s', id, k);
    WholeOwn(s, s', id, k);
  }

  lemma FinishTxn(s: State, s': State, id: nat)
    requires id in s.txns && TxnOk(s, id) && Finish(s, s', id)
    ensures WholeStep(s, s', id) && TxnOk(s', id)
  {
  }

  lemma FinishInv(s: State, s': State, id: nat)
    requires Inv(s) && Finish(s, s', id)
    ensures Inv(s')
  {
    assert TxnOk(s, id);
    FinishTxn(s, s', id);
    forall k | k in s.recs ensures RecOk(s', k) && HistKept(s, s', k) && TxnKeyOk(s', id, k) { FinishKey(s, s', id, k); }
    WholeInv(s, s', id);
  }

  lemma AbortKey(s: State, s': State, id: nat, k: Key)
    requires Inv(s) && Abort(s, s', id) && k in s.recs
    ensures RecOk(s', k) && HistKept(s, s', k) && TxnKeyOk(s', id, k)
  {
    Known(s, id, k);
    RecKept(s, s', id, k);
    WholeOwn(s, s', id, k);
  }

  lemma AbortTxn(s: State, s': State, id: nat)
    requires id in s.txns && TxnOk(s, id) && Abort(s, s', id)
    ensures WholeStep(s, s', id) && TxnOk(s', id)
  {
    forall k | k in s'.txns[id].wset ensures StageFits(Aborting, s'.txns[id].wset[k].stage) {
      assert StageFits(s.txns[id].phase, s.txns[id].wset[k].stage);
    }
  }

  lemma AbortInv(s: State, s': State, id: nat)
    requires Inv(s) && Abort(s, s', id)
    ensures Inv(s')
  {
    assert TxnOk(s, id);
    AbortTxn(s, s', id);
    forall k | k in s.recs ensures RecOk(s', k) && HistKept(s, s', k) && TxnKeyOk(s', id, k) { AbortKey(s, s', id, k); }
    WholeInv(s, s', id);
  }

  lemma DieKey(s: State, s': State, id: nat, k: Key)
    requires Inv(s) && Die(s, s', id) && k in s.recs
    ensures RecOk(s', k) && HistKept(s, s', k) && TxnKeyOk(s', id, k)
  {
    Known(s, id, k);
    RecKept(s, s', id, k);
    WholeOwn(s, s', id, k);
  }

  lemma DieTxn(s: State, s': State, id: nat)
    requires id in s.txns && TxnOk(s, id) && Die(s, s', id)
    ensures WholeStep(s, s', id) && TxnOk(s', id)
  {
  }

  lemma DieInv(s: State, s': State, id: nat)
    requires Inv(s) && Die(s, s', id)
    ensures Inv(s')
  {
    assert TxnOk(s, id);
    DieTxn(s, s', id);
    forall k | k in s.recs ensures RecOk(s', k) && HistKept(s, s', k) && TxnKeyOk(s', id, k) { DieKey(s, s', id, k); }
    WholeInv(s, s', id);
  }

  /** The coroutine's earlier transaction is over, so no lock word still names the coroutine. */
  lemma BeginKey(s: State, s': State, c: nat, id: nat, k: Key)
    requires Inv(s) && Begin(s, s', c, id) && k in s.recs
    ensures KeyInv(s', k)
  {
    assert KeyInv(s, k) && RecOk(s, k);
    if c in s.cur { assert TxnOk(s, s.cur[c]); }
    assert s.recs[k].lock != c;
    assert HistKept(s, s', k);
    VersKept(s, s', k, |s.recs[k].hist|);
    PointsKept(s, s', k);
    forall i | 0 <= i < |s'.recs[k].hist| ensures HistOk(s', k, i) { assert HistOk(s, k, i); }
    forall b | b in s'.recs[k].backup ensures BackupOk(s', k, b) { assert BackupOk(s, k, b); }
    forall x | x in s'.txns ensures TxnKeyOk(s', x, k) {
      if x != id {
        Known(s, x, k);
        TxnKeyFrame(s, s', x, k);
      }
    }
  }

  lemma BeginInv(s: State, s': State, c: nat, id: nat)
    requires Inv(s) && Begin(s, s', c, id)
    ensures Inv(s')
  {
    forall x | x in s'.txns ensures TxnOk(s', x) {
      if x != id { assert TxnOk(s, x); TxnFrame(s, s', x); }
    }
    forall a, b ensures PointsDiffer(s', a, b) { assert PointsDiffer(s, a, b); }
    forall k | k in s'.recs ensures KeyInv(s', k) { BeginKey(s, s', c, id, k); }
  }

  // ---------------------------------------------------------------------------------------------
  // Every step, every run
  // ---------------------------------------------------------------------------------------------

  predicate IsWhole(step: Step) {
    || step.BeginStep? || step.StartCommitStep? || step.LockPointStep? || step.DecideStep?
    || step.LogDoneStep? || step.FinishStep? || step.AbortStep? || step.DieStep?
  }

  predicate IsStore(step: Step) {
    || step.ApplyStep? || step.StoreFlagStep? || step.StoreWordStep? || step.StoreSeqStep?
    || step.StoreUnlockStep? || step.ReleaseStep?
  }

  lemma WholeStepInv(s: State, s': State, step: Step)
    requires Inv(s) && NextBy(s, s', step) && IsWhole(step)
    ensures Inv(s')
  {
    match step
    case BeginStep(c, id) => BeginInv(s, s', c, id);
    case StartCommitStep(id, vals) => StartCommitInv(s, s', id, vals);
    case LockPointStep(id) => LockPointInv(s, s', id);
    case DecideStep(id) => DecideInv(s, s', id);
    case LogDoneStep(id) => LogDoneInv(s, s', id);
    case FinishStep(id) => FinishInv(s, s', id);
    case AbortStep(id) => AbortInv(s, s', id);
    case DieStep(id) => DieInv(s, s', id);
  }

  lemma StoreStepInv(s: State, s': State, step: Step)
    requires Inv(s) && NextBy(s, s', step) && IsStore(step)
    ensures Inv(s')
  {
    match step
    case ApplyStep(id, b, k) => ApplyInv(s, s', id, b, k);
    case StoreFlagStep(id, k) => StoreFlagInv(s, s', id, k);
    case StoreWordStep(id, k) => StoreWordInv(s, s', id, k);
    case StoreSeqStep(id, k) => StoreSeqInv(s, s', id, k);
    case StoreUnlockStep(id, k) => StoreUnlockInv(s, s', id, k);
    case ReleaseStep(id, k) => ReleaseInv(s, s', id, k);
  }

  lemma ReadLockInv(s: State, s': State, step: Step)
    requires Inv(s) && NextBy(s, s', step) && !IsWhole(step) && !IsStore(step)
    ensures Inv(s')
  {
    match step
    case GetLoadStep(id, k, forWrite) => GetLoadInv(s, s', id, k, forWrite);
    case GetWordStep(id, k) => GetWordInv(s, s', id, k);
    case GetCheckStep(id, k) => GetCheckInv(s, s', id, k);
    case TryLockStep(id, k) => TryLockInv(s, s', id, k);
    case LockVerifyStep(id, k) => LockVerifyInv(s, s', id, k);
    case ValidateSeqStep(id, i) => ValidateInv(s, s', id, i);
    case ValidateLockStep(id, i) => ValidateInv(s, s', id, i);
  }

  lemma NextInv(s: State, s': State)
    requires Inv(s) && Next(s, s')
    ensures Inv(s')
  {
    var step :| NextBy(s, s', step);
    if IsWhole(step) { WholeStepInv(s, s', step); }
    else if IsStore(step) { StoreStepInv(s, s', step); }
    else { ReadLockInv(s, s', step); }
  }

  lemma {:induction false} RunInv(run: seq<State>, i: nat)
    requires Run(run) && i < |run|
    ensures Inv(run[i])
  {
    if i == 0 {
      InitInv(run[0]);
    } else {
      RunInv(run, i - 1);
      assert StepAt(run, i - 1);
      NextInv(run[i - 1], run[i]);
    }
  }
}
