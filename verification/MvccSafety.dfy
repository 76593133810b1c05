/** What every step of the multiversion protocol keeps, and what follows for whole runs. */
module MvccSafety {
  import opened Mvcc

  // ---------------------------------------------------------------------------------------------
  // The invariant
  // ---------------------------------------------------------------------------------------------

  /** Transaction w has put its timestamp into record k (w may be the loader). */
  ghost predicate Installed(s: State, w: nat, k: Key) {
    w == INIT_WTS || (Writes(s, w, k) && s.txns[w].status == Committed && !s.txns[w].wset[k].stage.Held?)
  }

  /** ... and its data, and has unlocked the record. */
  ghost predicate Finished(s: State, w: nat, k: Key) {
    w == INIT_WTS || (Writes(s, w, k) && s.txns[w].status == Committed && s.txns[w].wset[k].stage.Unlocked?)
  }

  predicate Writes(s: State, w: nat, k: Key) {
    w in s.txns && k in s.txns[w].wset
  }

  ghost function ValOf(s: State, w: nat, k: Key): Value {
    if w == INIT_WTS && k in s.init then s.init[k]
    else if Writes(s, w, k) then s.txns[w].wset[k].val
    else []
  }

  ghost predicate SlotOk(s: State, k: Key, i: nat)
    requires k in s.recs && i < |s.recs[k].wts| && i < |s.recs[k].data|
  {
    var rec := s.recs[k];
    var w := rec.wts[i];
    w != 0 ==>
      && Installed(s, w, k)
      && |rec.data[i]| == |ValOf(s, w, k)|
      && (Finished(s, w, k) ==> rec.data[i] == ValOf(s, w, k))
      && (!Finished(s, w, k) ==>
            var wr := s.txns[w].wset[k];
            wr.pos == i && wr.stage.Storing? && wr.stage.words <= |wr.val| && rec.data[i][..wr.stage.words] == wr.val[..wr.stage.words])
  }

  ghost predicate RecOk(s: State, k: Key)
    requires k in s.recs
  {
    var rec := s.recs[k];
    && k in s.init
    && |rec.wts| == VERSION_NUM && |rec.data| == VERSION_NUM
    && (forall i | 0 <= i < VERSION_NUM :: |rec.data[i]| == |s.init[k]|)
    && (forall i, j | 0 <= i < j < VERSION_NUM :: rec.wts[i] != 0 ==> rec.wts[i] != rec.wts[j])
    && (forall i {:trigger SlotOk(s, k, i)} | 0 <= i < VERSION_NUM :: SlotOk(s, k, i))
    && (rec.lock == 0 || (rec.lock in s.txns && Holds(s.txns[rec.lock], k)))
  }

  ghost predicate TxnOk(s: State, t: nat)
    requires t in s.txns
  {
    var a := s.txns[t];
    && a.cor in s.clock && ValidCor(a.cor)
    && t % 1024 == Slot(a.cor) && 1 <= t / 1024 <= s.clock[a.cor]
    && (a.status == Active ==> t / 1024 == s.clock[a.cor])
    && (a.status != Active ==> a.op == NoOp)
    && a.wset.Keys <= s.recs.Keys && a.rset.Keys <= s.recs.Keys
  }

  ghost predicate OpOk(s: State, t: nat, k: Key)
    requires t in s.txns && k in s.recs && |s.recs[k].wts| == VERSION_NUM == |s.recs[k].data|
  {
    var rec := s.recs[k];
    match s.txns[t].op
    case NoOp => true
    case Checked(k', pos, w) =>
      k' == k ==> pos < VERSION_NUM && 0 < w < t && Finished(s, w, k) && k !in s.txns[t].wset && k !in s.txns[t].rset
    case Bumped(k', pos, w) =>
      k' == k ==> pos < VERSION_NUM && 0 < w < t && Finished(s, w, k) && t <= rec.rts && k !in s.txns[t].wset && k !in s.txns[t].rset
    case Copying(k', pos, w, b, buf, whole) =>
      k' == k ==>
        && pos < VERSION_NUM && 0 < w < t && Finished(s, w, k) && t <= rec.rts && k !in s.txns[t].wset && k !in s.txns[t].rset
        && |buf| <= |rec.data[pos]|
        && (b == 0 || Installed(s, b, k)) && (b == w ==> whole)
        && (whole && b != 0 && rec.wts[pos] == b ==> |buf| <= |ValOf(s, b, k)| && buf == ValOf(s, b, k)[..|buf|])
    case WriteChecked(k') => k' == k ==> k !in s.txns[t].wset
    case LockSeen(k') => k' == k ==> k !in s.txns[t].wset
    case Locked(k') => k' == k ==> k !in s.txns[t].wset
  }

  ghost predicate WriteOk(s: State, t: nat, k: Key)
    requires Writes(s, t, k) && k in s.recs && |s.recs[k].wts| == VERSION_NUM
  {
    var rec := s.recs[k];
    var wr := s.txns[t].wset[k];
    && k in s.init && |wr.val| == |s.init[k]| == |wr.baseVal|
    && wr.pos < VERSION_NUM
    && 0 < wr.base < t && Finished(s, wr.base, k) && wr.baseVal == ValOf(s, wr.base, k)
    && match wr.stage
       case Held =>
         && (forall i | 0 <= i < VERSION_NUM :: rec.wts[i] < t && rec.wts[wr.pos] <= rec.wts[i] && rec.wts[i] <= wr.base)
       case Storing(words) => s.txns[t].status == Committed && rec.wts[wr.pos] == t && words <= |wr.val|
       case Unlocked => s.txns[t].status != Active
  }

  ghost predicate ReadOk(s: State, t: nat, k: Key)
    requires t in s.txns && k in s.txns[t].rset && k in s.recs
  {
    var rr := s.txns[t].rset[k];
    && t <= s.recs[k].rts
    && 0 < rr.ver < t && Finished(s, rr.ver, k)
    && (rr.Clean() ==> rr.whole) && (rr.whole ==> rr.val == ValOf(s, rr.ver, k))
  }

  ghost predicate TxnKeyOk(s: State, t: nat, k: Key)
    requires t in s.txns && k in s.recs && |s.recs[k].wts| == VERSION_NUM == |s.recs[k].data|
  {
    && (Holds(s.txns[t], k) ==> s.recs[k].lock == t)
    && OpOk(s, t, k)
    && (k in s.txns[t].wset ==> WriteOk(s, t, k))
    && (k in s.txns[t].rset ==> ReadOk(s, t, k))
  }

  /** Slots keep the largest installed timestamps: one that is gone is below all that are there. */
  ghost predicate Retained(s: State, w: nat, k: Key)
    requires k in s.recs
  {
    Installed(s, w, k) ==> w in s.recs[k].wts || forall i | 0 <= i < |s.recs[k].wts| :: w < s.recs[k].wts[i]
  }

  /** No writer x of k, present or to come, falls between the version t read and t itself. */
  ghost predicate NoneBetween(s: State, t: nat, x: nat, k: Key) {
    t in s.txns && Writes(s, x, k) && x != t && s.txns[x].status != Aborted ==>
      && (k in s.txns[t].rset ==> x <= s.txns[t].rset[k].ver || t <= x)
      && (k in s.txns[t].wset && s.txns[t].status != Aborted ==> x <= s.txns[t].wset[k].base || t <= x)
  }

  /** Everything that concerns one record. */
  ghost predicate KeyInv(s: State, k: Key)
    requires k in s.recs
  {
    && RecOk(s, k)
    && (forall t {:trigger TxnKeyOk(s, t, k)} | t in s.txns :: TxnKeyOk(s, t, k))
    && (forall w {:trigger Retained(s, w, k)} :: Retained(s, w, k))
    && (forall t, x {:trigger NoneBetween(s, t, x, k)} :: NoneBetween(s, t, x, k))
  }

  ghost predicate Inv(s: State) {
    && s.recs.Keys == s.init.Keys
    && (forall c | c in s.clock :: ValidCor(c))
    && (forall t {:trigger TxnOk(s, t)} | t in s.txns :: TxnOk(s, t))
    && (forall k {:trigger KeyInv(s, k)} | k in s.recs :: KeyInv(s, k))
  }

  lemma Known(s: State, t: nat, k: Key)
    requires Inv(s) && t in s.txns && k in s.recs
    ensures KeyInv(s, k) && TxnKeyOk(s, t, k) && TxnOk(s, t) && 0 !in s.txns
  {
    assert KeyInv(s, k);
    assert 0 in s.txns ==> TxnOk(s, 0);
  }

  // ---------------------------------------------------------------------------------------------
  // Timestamps are never reused
  // ---------------------------------------------------------------------------------------------

  lemma SlotsDiffer(c: Cor, d: Cor)
    requires ValidCor(c) && ValidCor(d)
    ensures Slot(c) == Slot(d) <==> c == d
    ensures 0 < Slot(c) < 1024
  {
    if Slot(c) == Slot(d) {
      var x, y := c.worker * 10 + c.id - 1, d.worker * 10 + d.id - 1;
      assert c.node * 80 + x == d.node * 80 + y && 0 <= x < 80 && 0 <= y < 80;
      assert c.node == d.node && x == y;
      assert c.worker == d.worker;
    }
  }

  lemma TimestampParts(count: nat, c: Cor)
    requires ValidCor(c)
    ensures Timestamp(count, c) % 1024 == Slot(c) && Timestamp(count, c) / 1024 == count
  {
    SlotsDiffer(c, c);
    Split(count, Slot(c));
  }

  lemma Split(a: nat, b: nat)
    requires b < 1024
    ensures (a * 1024 + b) % 1024 == b && (a * 1024 + b) / 1024 == a
  {
  }

  lemma FreshTimestamp(s: State, c: Cor)
    requires Inv(s) && c in s.clock
    ensures Timestamp(s.clock[c] + 1, c) !in s.txns
    ensures forall t | t in s.txns && s.txns[t].cor == c :: t < Timestamp(s.clock[c] + 1, c)
  {
    var n := s.clock[c] + 1;
    TimestampParts(n, c);
    forall t | t in s.txns ensures t != Timestamp(n, c) && (s.txns[t].cor == c ==> t < Timestamp(n, c)) {
      assert TxnOk(s, t);
      SlotsDiffer(s.txns[t].cor, c);
    }
  }

  lemma InitInv(s: State)
    requires Init(s)
    ensures Inv(s)
  {
    forall k | k in s.recs ensures KeyInv(s, k) {
      assert InitRecord(s.recs[k], s.init[k]);
      assert INIT_WTS == s.recs[k].wts[0];
    }
  }

  // ---------------------------------------------------------------------------------------------
  // Frames
  // ---------------------------------------------------------------------------------------------

  /** As far as record k is concerned, the two attempts are the same. */
  ghost predicate SameOn(a: Attempt, b: Attempt, k: Key) {
    && a.status == b.status
    && (k in a.wset <==> k in b.wset) && (k in a.wset ==> a.wset[k] == b.wset[k])
    && (k in a.rset <==> k in b.rset) && (k in a.rset ==> a.rset[k] == b.rset[k])
  }

  predicate Elsewhere(op: Op, k: Key) {
    op == NoOp || op.k != k
  }

  /** Versions keep their value, and those that were complete stay complete. */
  ghost predicate VersionsKept(s: State, s': State, k: Key) {
    forall w | Installed(s, w, k) ::
      Installed(s', w, k) && ValOf(s', w, k) == ValOf(s, w, k) && (Finished(s, w, k) ==> Finished(s', w, k))
  }

  lemma WriteFrame(s: State, s': State, x: nat, k: Key)
    requires Writes(s, x, k) && Writes(s', x, k) && s.txns[x].wset[k] == s'.txns[x].wset[k] && s.txns[x].status == s'.txns[x].status
    requires k in s.recs && k in s'.recs && |s.recs[k].wts| == VERSION_NUM && s'.recs[k].wts == s.recs[k].wts
    requires s.init == s'.init && VersionsKept(s, s', k) && WriteOk(s, x, k)
    ensures WriteOk(s', x, k)
  {
  }

  lemma ReadFrame(s: State, s': State, x: nat, k: Key)
    requires x in s.txns && x in s'.txns && k in s.txns[x].rset && k in s'.txns[x].rset && s.txns[x].rset[k] == s'.txns[x].rset[k]
    requires k in s.recs && k in s'.recs && s.recs[k].rts <= s'.recs[k].rts
    requires VersionsKept(s, s', k) && ReadOk(s, x, k)
    ensures ReadOk(s', x, k)
  {
  }

  lemma OpFrame(s: State, s': State, x: nat, k: Key)
    requires x in s.txns && x in s'.txns && s.txns[x].op == s'.txns[x].op && SameOn(s.txns[x], s'.txns[x], k)
    requires k in s.recs && k in s'.recs && |s.recs[k].wts| == VERSION_NUM == |s.recs[k].data|
    requires s'.recs[k].wts == s.recs[k].wts && s'.recs[k].data == s.recs[k].data && s.recs[k].rts <= s'.recs[k].rts
    requires VersionsKept(s, s', k) && OpOk(s, x, k)
    ensures OpOk(s', x, k)
  {
  }

  /** An attempt's facts about k survive a step that leaves its slots alone. */
  lemma TxnKeyFrame(s: State, s': State, x: nat, k: Key)
    requires x in s.txns && x in s'.txns && SameOn(s.txns[x], s'.txns[x], k)
    requires s.txns[x].op == s'.txns[x].op || (Elsewhere(s.txns[x].op, k) && Elsewhere(s'.txns[x].op, k))
    requires k in s.recs && k in s'.recs && |s.recs[k].wts| == VERSION_NUM == |s.recs[k].data|
    requires s'.recs[k].wts == s.recs[k].wts && s'.recs[k].data == s.recs[k].data && s.recs[k].rts <= s'.recs[k].rts
    requires s.recs[k].lock == s'.recs[k].lock || !Holds(s.txns[x], k)
    requires s.init == s'.init && VersionsKept(s, s', k) && TxnKeyOk(s, x, k)
    ensures TxnKeyOk(s', x, k)
  {
    if k in s.txns[x].wset { WriteFrame(s, s', x, k); }
    if k in s.txns[x].rset { ReadFrame(s, s', x, k); }
    if s.txns[x].op == s'.txns[x].op { OpFrame(s, s', x, k); }
  }

  lemma SlotFrame(s: State, s': State, k: Key)
    requires k in s.recs && k in s'.recs && s'.init == s.init && RecOk(s, k)
    requires s'.recs[k].wts == s.recs[k].wts && s'.recs[k].data == s.recs[k].data
    requires forall x | x in s.txns :: x in s'.txns && SameOn(s.txns[x], s'.txns[x], k)
    ensures forall i | 0 <= i < VERSION_NUM :: SlotOk(s', k, i)
  {
    forall i | 0 <= i < VERSION_NUM ensures SlotOk(s', k, i) { assert SlotOk(s, k, i); }
  }

  /** Every attempt has the same entries on k as before, and k's slots are as before. */
  ghost predicate SameEntries(s: State, s': State, k: Key) {
    && k in s.recs && k in s'.recs && s'.init == s.init
    && s'.recs[k].wts == s.recs[k].wts && s'.recs[k].data == s.recs[k].data && s.recs[k].rts <= s'.recs[k].rts
    && s.txns.Keys == s'.txns.Keys
    && forall x | x in s.txns :: SameOn(s.txns[x], s'.txns[x], k)
  }

  lemma SameVersions(s: State, s': State, k: Key)
    requires SameEntries(s, s', k)
    ensures VersionsKept(s, s', k)
    ensures forall w :: Installed(s, w, k) <==> Installed(s', w, k)
  {
  }

  lemma SameHistory(s: State, s': State, k: Key)
    requires SameEntries(s, s', k) && KeyInv(s, k)
    ensures forall w :: Retained(s', w, k)
    ensures forall x, y :: NoneBetween(s', x, y, k)
  {
    SameVersions(s, s', k);
    forall w ensures Retained(s', w, k) { assert Retained(s, w, k); }
    forall x, y ensures NoneBetween(s', x, y, k) { assert NoneBetween(s, x, y, k); }
  }

  /** A step elsewhere: nothing about record k changed. */
  ghost predicate Untouched(s: State, s': State, k: Key) {
    && SameEntries(s, s', k) && s'.recs[k] == s.recs[k]
    && forall x | x in s.txns ::
         s.txns[x].op == s'.txns[x].op || (Elsewhere(s.txns[x].op, k) && Elsewhere(s'.txns[x].op, k))
  }

  lemma UntouchedKey(s: State, s': State, k: Key)
    requires Untouched(s, s', k) && KeyInv(s, k)
    ensures KeyInv(s', k)
  {
    SameVersions(s, s', k);
    SlotFrame(s, s', k);
    SameHistory(s, s', k);
    forall x | x in s'.txns ensures TxnKeyOk(s', x, k) {
      assert SameOn(s.txns[x], s'.txns[x], k);
      TxnKeyFrame(s, s', x, k);
    }
  }

  lemma BeginKey(s: State, s': State, c: Cor, t: nat, k: Key)
    requires t !in s.txns && Begin(s, s', c, t) && k in s.recs && KeyInv(s, k)
    ensures KeyInv(s', k)
  {
    SlotFrame(s, s', k);
    assert VersionsKept(s, s', k);
    forall x | x in s'.txns ensures TxnKeyOk(s', x, k) { if x != t { TxnKeyFrame(s, s', x, k); } }
    forall w ensures Retained(s', w, k) { assert Retained(s, w, k); }
    forall x, y ensures NoneBetween(s', x, y, k) { assert NoneBetween(s, x, y, k); }
  }

  lemma BeginInv(s: State, s': State, c: Cor, t: nat)
    requires Inv(s) && Begin(s, s', c, t)
    ensures Inv(s')
  {
    FreshTimestamp(s, c);
    TimestampParts(s.clock[c] + 1, c);
    forall x | x in s'.txns ensures TxnOk(s', x) { assert x != t ==> TxnOk(s, x); }
    forall k | k in s'.recs ensures KeyInv(s', k) { BeginKey(s, s', c, t, k); }
  }

  /** The same transactions have installed, and finished, the same versions of k. */
  ghost predicate HistoryKept(s: State, s': State, k: Key) {
    && s'.init == s.init
    && forall w {:trigger Installed(s', w, k)} {:trigger Finished(s', w, k)} {:trigger Finished(s, w, k)} ::
         && (Installed(s, w, k) <==> Installed(s', w, k)) && (Finished(s, w, k) <==> Finished(s', w, k))
         && (Installed(s, w, k) && w != INIT_WTS ==> s'.txns[w].wset[k] == s.txns[w].wset[k])
  }

  lemma SlotsKept(s: State, s': State, k: Key)
    requires k in s.recs && k in s'.recs && KeyInv(s, k) && HistoryKept(s, s', k)
    requires s'.recs[k].wts == s.recs[k].wts && s'.recs[k].data == s.recs[k].data
    requires s'.recs[k].lock == 0 || (s'.recs[k].lock in s'.txns && Holds(s'.txns[s'.recs[k].lock], k))
    ensures RecOk(s', k) && VersionsKept(s, s', k) && forall w :: Retained(s', w, k)
  {
    forall w | Installed(s, w, k)
      ensures Installed(s', w, k) && ValOf(s', w, k) == ValOf(s, w, k) && (Finished(s, w, k) ==> Finished(s', w, k))
    {
      assert Finished(s, w, k) <==> Finished(s', w, k);
    }
    forall i | 0 <= i < VERSION_NUM ensures SlotOk(s', k, i) { assert SlotOk(s, k, i); }
    forall w ensures Retained(s', w, k) { assert Retained(s, w, k); }
  }

  /** Every attempt other than t is as before. */
  ghost predicate OthersKept(s: State, s': State, t: nat) {
    s'.init == s.init && s'.txns.Keys == s.txns.Keys && forall x | x in s.txns && x != t :: s'.txns[x] == s.txns[x]
  }

  /** What the other attempts know about k survives a step of t that leaves the slots alone. */
  lemma OthersOk(s: State, s': State, t: nat, k: Key)
    requires k in s.recs && k in s'.recs && KeyInv(s, k) && OthersKept(s, s', t) && VersionsKept(s, s', k)
    requires s'.recs[k].wts == s.recs[k].wts && s'.recs[k].data == s.recs[k].data && s.recs[k].rts <= s'.recs[k].rts
    requires s'.recs[k].lock == s.recs[k].lock || s.recs[k].lock == t || (s.recs[k].lock == 0 && 0 !in s.txns)
    ensures forall x | x in s'.txns && x != t :: TxnKeyOk(s', x, k)
  {
    forall x | x in s'.txns && x != t ensures TxnKeyOk(s', x, k) {
      assert TxnKeyOk(s, x, k);
      TxnKeyFrame(s, s', x, k);
    }
  }

  /** t's step gave nobody a new read or write entry on k. */
  lemma BetweenKept(s: State, s': State, t: nat, k: Key)
    requires k in s.recs && KeyInv(s, k) && OthersKept(s, s', t) && t in s.txns
    requires k in s'.txns[t].rset ==> k in s.txns[t].rset && s'.txns[t].rset[k] == s.txns[t].rset[k]
    requires k in s'.txns[t].wset ==> k in s.txns[t].wset && s'.txns[t].wset[k].base == s.txns[t].wset[k].base
    requires s.txns[t].status == Aborted ==> s'.txns[t].status == Aborted
    ensures forall x, y :: NoneBetween(s', x, y, k)
  {
    forall x, y ensures NoneBetween(s', x, y, k) { assert NoneBetween(s, x, y, k); }
  }

  // ---------------------------------------------------------------------------------------------
  // Steps of one transaction on one record
  // ---------------------------------------------------------------------------------------------

  /** Only record k and t's own state changed, and in t's state nothing about other records. */
  ghost predicate LocalTo(s: State, s': State, t: nat, k: Key) {
    && t in s.txns && t in s'.txns && k in s.recs && k in s'.recs
    && s'.init == s.init && s'.clock == s.clock
    && s'.recs == s.recs[k := s'.recs[k]]
    && s'.txns == s.txns[t := s'.txns[t]]
    && (s.txns[t].op == NoOp || s.txns[t].op.k == k) && (s'.txns[t].op == NoOp || s'.txns[t].op.k == k)
    && s.txns[t].cor == s'.txns[t].cor && s.txns[t].status == s'.txns[t].status
    && s'.txns[t].wset.Keys <= s.txns[t].wset.Keys + {k} && s'.txns[t].rset.Keys <= s.txns[t].rset.Keys + {k}
    && forall j | j != k :: SameOn(s.txns[t], s'.txns[t], j)
  }

  lemma LocalInv(s: State, s': State, t: nat, k: Key)
    requires Inv(s) && LocalTo(s, s', t, k) && KeyInv(s', k)
    requires s'.txns[t].status != Active ==> s'.txns[t].op == NoOp
    ensures Inv(s')
  {
    forall x | x in s'.txns ensures TxnOk(s', x) { assert TxnOk(s, x); }
    forall j | j in s'.recs ensures KeyInv(s', j) {
      if j != k {
        assert Untouched(s, s', j);
        UntouchedKey(s, s', j);
      }
    }
  }

  /** Steps that move t along without touching locks, slots or read and write sets. */
  lemma OpStep(s: State, s': State, t: nat, k: Key)
    requires Inv(s) && LocalTo(s, s', t, k) && SameOn(s.txns[t], s'.txns[t], k) && SameEntries(s, s', k)
    requires s.recs[k].lock == s'.recs[k].lock
    requires s.txns[t].status == Active && !s.txns[t].op.Locked? && !s'.txns[t].op.Locked?
    requires KeyInv(s, k) && OpOk(s', t, k)
    ensures Inv(s')
  {
    SameVersions(s, s', k);
    SlotFrame(s, s', k);
    SameHistory(s, s', k);
    OthersOk(s, s', t, k);
    assert TxnKeyOk(s, t, k);
    if k in s.txns[t].wset { WriteFrame(s, s', t, k); }
    if k in s.txns[t].rset { ReadFrame(s, s', t, k); }
    LocalInv(s, s', t, k);
  }

  /** A version check_read picks while no earlier writer holds the record is complete. */
  lemma PickedIsFinished(s: State, t: nat, k: Key)
    requires k in s.recs && KeyInv(s, k) && 0 <= CheckRead(s.recs[k], t)
    ensures Finished(s, s.recs[k].wts[CheckRead(s.recs[k], t)], k)
  {
    var rec := s.recs[k];
    var pos := CheckRead(rec, t);
    var w := rec.wts[pos];
    assert SlotOk(s, k, pos);
    assert w in s.txns ==> TxnKeyOk(s, w, k);
  }

  lemma ReadCheckInv(s: State, s': State, t: nat, k: Key)
    requires Inv(s) && ReadCheck(s, s', t, k)
    ensures Inv(s')
  {
    Known(s, t, k);
    PickedIsFinished(s, t, k);
    OpStep(s, s', t, k);
  }

  lemma ReadBumpInv(s: State, s': State, t: nat, k: Key)
    requires Inv(s) && ReadBump(s, s', t, k)
    ensures Inv(s')
  {
    Known(s, t, k);
    OpStep(s, s', t, k);
  }

  lemma ReadLoadInv(s: State, s': State, t: nat, k: Key)
    requires Inv(s) && ReadLoad(s, s', t, k)
    ensures Inv(s')
  {
    Known(s, t, k);
    assert SlotOk(s, k, s.txns[t].op.pos);
    OpStep(s, s', t, k);
  }

  /** A word that has been stored is the version's. */
  lemma WordCopied(s: State, s': State, t: nat, k: Key)
    requires Inv(s) && ReadWord(s, s', t, k)
    ensures var op, op' := s.txns[t].op, s'.txns[t].op;
            op.pos < |s.recs[k].wts| && (op'.whole && op.b != 0 && s.recs[k].wts[op.pos] == op.b ==>
              |op'.buf| <= |ValOf(s, op.b, k)| && op'.buf == ValOf(s, op.b, k)[..|op'.buf|])
    ensures s'.txns[t].op.b == s'.txns[t].op.w ==> s'.txns[t].op.whole
  {
    Known(s, t, k);
    var op := s.txns[t].op;
    assert SlotOk(s, k, op.pos);
    var n := |op.buf|;
    if s'.txns[t].op.whole && op.b != 0 && s.recs[k].wts[op.pos] == op.b {
      var v := ValOf(s, op.b, k);
      assert s.recs[k].data[op.pos][n] == v[n] by {
        if !Finished(s, op.b, k) {
          var wr := s.txns[op.b].wset[k];
          assert s.recs[k].data[op.pos][..wr.stage.words][n] == wr.val[..wr.stage.words][n];
        }
      }
      assert v[..n + 1] == v[..n] + [v[n]];
    }
  }

  lemma ReadWordInv(s: State, s': State, t: nat, k: Key)
    requires Inv(s) && ReadWord(s, s', t, k)
    ensures Inv(s')
  {
    Known(s, t, k);
    WordCopied(s, s', t, k);
    OpStep(s, s', t, k);
  }

  lemma LockCheckInv(s: State, s': State, t: nat, k: Key)
    requires Inv(s) && LockCheck(s, s', t, k)
    ensures Inv(s')
  {
    OpStep(s, s', t, k);
  }

  lemma LockLoadInv(s: State, s': State, t: nat, k: Key)
    requires Inv(s) && LockLoad(s, s', t, k)
    ensures Inv(s')
  {
    Known(s, t, k);
    OpStep(s, s', t, k);
  }

  // ---------------------------------------------------------------------------------------------
  // The read that passes its recheck
  // ---------------------------------------------------------------------------------------------

  /** Nobody can be between the version that passes the recheck and the reader. */
  lemma RecheckSeesAll(s: State, s': State, t: nat, x: nat, k: Key)
    requires Inv(s) && ReadRecheck(s, s', t, k)
    requires Writes(s, x, k) && x != t && s.txns[x].status != Aborted
    ensures x <= s.txns[t].op.b || t <= x
  {
    Known(s, x, k);
    if x < t {
      assert Installed(s, x, k) && Retained(s, x, k);
    }
  }

  lemma ReadRecheckHistory(s: State, s': State, t: nat, k: Key)
    requires Inv(s) && ReadRecheck(s, s', t, k)
    ensures forall x, y :: NoneBetween(s', x, y, k)
  {
    Known(s, t, k);
    forall x, y ensures NoneBetween(s', x, y, k) {
      assert NoneBetween(s, x, y, k);
      if x == t && Writes(s, y, k) && y != t && s.txns[y].status != Aborted { RecheckSeesAll(s, s', t, y, k); }
    }
  }

  lemma ReadRecheckInv(s: State, s': State, t: nat, k: Key)
    requires Inv(s) && ReadRecheck(s, s', t, k)
    ensures Inv(s')
  {
    var op := s.txns[t].op;
    Known(s, t, k);
    PickedIsFinished(s, t, k);
    assert SlotOk(s, k, op.pos);
    SlotsKept(s, s', k);
    OthersOk(s, s', t, k);
    if k in s.txns[t].wset { WriteFrame(s, s', t, k); }
    assert TxnKeyOk(s', t, k);
    ReadRecheckHistory(s, s', t, k);
    LocalInv(s, s', t, k);
  }

  // ---------------------------------------------------------------------------------------------
  // Locking
  // ---------------------------------------------------------------------------------------------

  lemma LockCasInv(s: State, s': State, t: nat, k: Key)
    requires Inv(s) && LockCas(s, s', t, k)
    ensures Inv(s')
  {
    Known(s, t, k);
    SlotsKept(s, s', k);
    OthersOk(s, s', t, k);
    if k in s.txns[t].rset { ReadFrame(s, s', t, k); }
    BetweenKept(s, s', t, k);
    LocalInv(s, s', t, k);
  }

  /** A version seen under the lock is complete. */
  lemma LockedSlotFinished(s: State, t: nat, k: Key, i: nat)
    requires Inv(s) && k in s.recs && t in s.txns && s.txns[t].op == Locked(k)
    requires i < |s.recs[k].wts| && i < |s.recs[k].data| && s.recs[k].wts[i] != 0
    ensures Finished(s, s.recs[k].wts[i], k) && s.recs[k].wts[i] != t
    ensures s.recs[k].data[i] == ValOf(s, s.recs[k].wts[i], k)
  {
    Known(s, t, k);
    var w := s.recs[k].wts[i];
    assert SlotOk(s, k, i);
    if w in s.txns { Known(s, w, k); }
  }

  lemma LockRecheckWrite(s: State, s': State, t: nat, k: Key)
    requires Inv(s) && LockRecheck(s, s', t, k) && VersionsKept(s, s', k)
    ensures |s'.recs[k].wts| == VERSION_NUM && WriteOk(s', t, k)
  {
    Known(s, t, k);
    var rec := s.recs[k];
    LockedSlotFinished(s, t, k, MaxSlot(rec.wts));
    forall i | 0 <= i < VERSION_NUM ensures rec.wts[i] < t {
      if rec.wts[i] != 0 { LockedSlotFinished(s, t, k, i); }
    }
  }

  /** While t holds the lock every other live writer of k is already in, or behind, the slots. */
  lemma LockSeesAll(s: State, t: nat, x: nat, k: Key)
    requires Inv(s) && t in s.txns && k in s.recs && s.txns[t].op == Locked(k)
    requires Writes(s, x, k) && x != t && s.txns[x].status != Aborted
    ensures x <= MaxWts(s.recs[k].wts)
  {
    Known(s, t, k);
    Known(s, x, k);
    assert Installed(s, x, k) && Retained(s, x, k);
    assert Retained(s, INIT_WTS, k);
  }

  lemma LockRecheckHistory(s: State, s': State, t: nat, k: Key)
    requires Inv(s) && LockRecheck(s, s', t, k)
    ensures forall x, y :: NoneBetween(s', x, y, k)
  {
    Known(s, t, k);
    forall x, y ensures NoneBetween(s', x, y, k) {
      assert NoneBetween(s, x, y, k);
      if Writes(s', y, k) && x in s'.txns && x != y && s'.txns[y].status != Aborted {
        Known(s, x, k);
        if x == t { LockSeesAll(s, t, y, k); }
        if y == t && Writes(s, x, k) && s.txns[x].status != Aborted { LockSeesAll(s, t, x, k); }
      }
    }
  }

  lemma LockRecheckInv(s: State, s': State, t: nat, k: Key)
    requires Inv(s) && LockRecheck(s, s', t, k)
    ensures Inv(s')
  {
    Known(s, t, k);
    SlotsKept(s, s', k);
    LockRecheckWrite(s, s', t, k);
    LockRecheckHistory(s, s', t, k);
    OthersOk(s, s', t, k);
    if k in s.txns[t].rset { ReadFrame(s, s', t, k); }
    LocalInv(s, s', t, k);
  }

  // ---------------------------------------------------------------------------------------------
  // Aborting and committing, which concern every record of the write set
  // ---------------------------------------------------------------------------------------------

  /** t gives up; the lock it held without an entry, if any, is freed. */
  ghost predicate GivesUp(s: State, s': State, t: nat) {
    && t in s.txns && s.txns[t].status == Active
    && s'.init == s.init && s'.recs.Keys == s.recs.Keys
    && s'.txns == s.txns[t := s.txns[t].(op := NoOp, status := Aborted)]
    && forall k | k in s.recs ::
         s'.recs[k] == if s.txns[t].op == Locked(k) then s.recs[k].(lock := 0) else s.recs[k]
  }

  lemma GivesUpKey(s: State, s': State, t: nat, k: Key)
    requires Inv(s) && GivesUp(s, s', t) && k in s.recs
    ensures KeyInv(s', k)
  {
    Known(s, t, k);
    SlotsKept(s, s', k);
    OthersOk(s, s', t, k);
    if k in s.txns[t].rset { ReadFrame(s, s', t, k); }
    BetweenKept(s, s', t, k);
  }

  /** A blocking timestamp is later than the transaction, so the counter never moves back. */
  lemma GivesUpInv(s: State, s': State, t: nat)
    requires Inv(s) && GivesUp(s, s', t)
    requires s'.clock == s.clock || (exists b :: t < b && s'.clock == s.clock[s.txns[t].cor := b / 1024])
    ensures Inv(s')
  {
    assert TxnOk(s, t);
    forall x | x in s'.txns ensures TxnOk(s', x) {
      assert TxnOk(s, x);
      if x != t && s.txns[x].cor == s.txns[t].cor { SlotsDiffer(s.txns[x].cor, s.txns[x].cor); }
    }
    forall k | k in s'.recs ensures KeyInv(s', k) { GivesUpKey(s, s', t, k); }
  }

  lemma CommitKey(s: State, s': State, t: nat, vals: map<Key, Value>, k: Key)
    requires Inv(s) && Commit(s, s', t, vals) && k in s.recs
    ensures KeyInv(s', k)
  {
    Known(s, t, k);
    SlotsKept(s, s', k);
    OthersOk(s, s', t, k);
    if k in s.txns[t].rset { ReadFrame(s, s', t, k); }
    BetweenKept(s, s', t, k);
  }

  lemma CommitInv(s: State, s': State, t: nat, vals: map<Key, Value>)
    requires Inv(s) && Commit(s, s', t, vals)
    ensures Inv(s')
  {
    forall x | x in s'.txns ensures TxnOk(s', x) { assert TxnOk(s, x); }
    forall k | k in s'.recs ensures KeyInv(s', k) { CommitKey(s, s', t, vals, k); }
  }

  // ---------------------------------------------------------------------------------------------
  // Installing and releasing
  // ---------------------------------------------------------------------------------------------

  lemma StoreWtsSlots(s: State, s': State, t: nat, k: Key)
    requires Inv(s) && StoreWts(s, s', t, k)
    ensures RecOk(s', k) && forall w :: Retained(s', w, k)
  {
    Known(s, t, k);
    var pos := s.txns[t].wset[k].pos;
    forall i | 0 <= i < VERSION_NUM ensures SlotOk(s', k, i) { assert SlotOk(s, k, i); }
    forall w ensures Retained(s', w, k) {
      assert Retained(s, w, k);
      if Installed(s', w, k) {
        if w == t {
          assert s'.recs[k].wts[pos] == t;
        } else {
          assert Installed(s, w, k);
          if w in s.recs[k].wts {
            var i :| 0 <= i < VERSION_NUM && s.recs[k].wts[i] == w;
            assert i != pos ==> s'.recs[k].wts[i] == w;
            if w in s.txns { assert TxnOk(s, w); }
          }
        }
      }
    }
  }

  /** A store by the holder t disturbs nobody's complete version. */
  lemma StoreTxn(s: State, s': State, t: nat, x: nat, k: Key)
    requires StoreWts(s, s', t, k) || StoreWord(s, s', t, k)
    requires |s.recs[k].wts| == VERSION_NUM == |s.recs[k].data| && TxnKeyOk(s, t, k)
    requires x in s.txns && TxnKeyOk(s, x, k) && t != INIT_WTS && s.txns[t].op == NoOp
    ensures |s'.recs[k].wts| == VERSION_NUM == |s'.recs[k].data| && TxnKeyOk(s', x, k)
  {
    assert VersionsKept(s, s', k);
    if x == t {
      if k in s.txns[t].rset { ReadFrame(s, s', t, k); }
    } else {
      if k in s.txns[x].wset { StoreOtherWrite(s, s', t, x, k); }
      if k in s.txns[x].rset { ReadFrame(s, s', x, k); }
    }
  }

  lemma StoreOtherWrite(s: State, s': State, t: nat, x: nat, k: Key)
    requires StoreWts(s, s', t, k) || StoreWord(s, s', t, k)
    requires |s.recs[k].wts| == VERSION_NUM == |s.recs[k].data| && TxnKeyOk(s, t, k)
    requires x != t && Writes(s, x, k) && TxnKeyOk(s, x, k) && VersionsKept(s, s', k)
    ensures WriteOk(s', x, k)
  {
  }

  lemma StoreWtsInv(s: State, s': State, t: nat, k: Key)
    requires Inv(s) && StoreWts(s, s', t, k)
    ensures Inv(s')
  {
    Known(s, t, k);
    StoreWtsSlots(s, s', t, k);
    forall x | x in s'.txns ensures TxnKeyOk(s', x, k) { Known(s, x, k); StoreTxn(s, s', t, x, k); }
    BetweenKept(s, s', t, k);
    LocalInv(s, s', t, k);
  }

  lemma StoreWordSlots(s: State, s': State, t: nat, k: Key)
    requires Inv(s) && StoreWord(s, s', t, k)
    ensures RecOk(s', k) && forall w :: Retained(s', w, k)
  {
    Known(s, t, k);
    forall i | 0 <= i < VERSION_NUM ensures SlotOk(s', k, i) {
      assert SlotOk(s, k, i);
      if i == s.txns[t].wset[k].pos { StoreWordSlot(s, s', t, k); }
    }
    forall w ensures Retained(s', w, k) { assert Retained(s, w, k); }
  }

  lemma StoreWordInv(s: State, s': State, t: nat, k: Key)
    requires Inv(s) && StoreWord(s, s', t, k)
    ensures Inv(s')
  {
    Known(s, t, k);
    StoreWordSlots(s, s', t, k);
    forall x | x in s'.txns ensures TxnKeyOk(s', x, k) { Known(s, x, k); StoreTxn(s, s', t, x, k); }
    BetweenKept(s, s', t, k);
    LocalInv(s, s', t, k);
  }

  lemma StoreWordSlot(s: State, s': State, t: nat, k: Key)
    requires StoreWord(s, s', t, k) && |s.recs[k].wts| == VERSION_NUM == |s.recs[k].data|
    requires SlotOk(s, k, s.txns[t].wset[k].pos) && s.recs[k].wts[s.txns[t].wset[k].pos] == t && t != 0 && t != INIT_WTS
    ensures SlotOk(s', k, s.txns[t].wset[k].pos)
  {
    var wr := s.txns[t].wset[k];
    var before, after := s.recs[k].data[wr.pos], s'.recs[k].data[wr.pos];
    var n := wr.stage.words;
    assert after[..n + 1] == before[..n] + [wr.val[n]] == wr.val[..n + 1];
  }

  /** The holder lets go of k: after its last store, or because it aborted. */
  ghost predicate LetsGo(s: State, s': State, t: nat, k: Key) {
    StoreDone(s, s', t, k) || Release(s, s', t, k)
  }

  lemma LetsGoSlots(s: State, s': State, t: nat, k: Key)
    requires Inv(s) && LetsGo(s, s', t, k)
    ensures VersionsKept(s, s', k) && RecOk(s', k) && (forall w :: Retained(s', w, k))
  {
    Known(s, t, k);
    forall i | 0 <= i < VERSION_NUM ensures SlotOk(s', k, i) {
      assert SlotOk(s, k, i);
      assert s.recs[k].data[i] == s.recs[k].data[i][..|s.recs[k].data[i]|];
    }
    forall w ensures Retained(s', w, k) { assert Retained(s, w, k); }
  }

  lemma LetsGoInv(s: State, s': State, t: nat, k: Key)
    requires Inv(s) && LetsGo(s, s', t, k)
    ensures Inv(s')
  {
    Known(s, t, k);
    LetsGoSlots(s, s', t, k);
    OthersOk(s, s', t, k);
    LetsGoHolder(s, s', t, k);
    BetweenKept(s, s', t, k);
    LocalInv(s, s', t, k);
  }

  lemma LetsGoHolder(s: State, s': State, t: nat, k: Key)
    requires LetsGo(s, s', t, k) && VersionsKept(s, s', k)
    requires |s.recs[k].wts| == VERSION_NUM == |s.recs[k].data| && TxnKeyOk(s, t, k) && s.txns[t].op == NoOp
    ensures TxnKeyOk(s', t, k)
  {
    if k in s.txns[t].rset { ReadFrame(s, s', t, k); }
  }

  // ---------------------------------------------------------------------------------------------
  // Every step, every run
  // ---------------------------------------------------------------------------------------------

  predicate IsRead(step: Step) {
    step.ReadCheckStep? || step.ReadBumpStep? || step.ReadLoadStep? || step.ReadWordStep? || step.ReadRecheckStep?
  }

  predicate IsLock(step: Step) {
    step.LockCheckStep? || step.LockLoadStep? || step.LockCasStep? || step.LockRecheckStep?
  }

  predicate IsInstall(step: Step) {
    step.StoreWtsStep? || step.StoreWordStep? || step.StoreDoneStep? || step.ReleaseStep?
  }

  lemma ReadInv(s: State, s': State, step: Step)
    requires Inv(s) && NextBy(s, s', step) && IsRead(step)
    ensures Inv(s')
  {
    match step
    case ReadCheckStep(t, k) => ReadCheckInv(s, s', t, k);
    case ReadBumpStep(t, k) => ReadBumpInv(s, s', t, k);
    case ReadLoadStep(t, k) => ReadLoadInv(s, s', t, k);
    case ReadWordStep(t, k) => ReadWordInv(s, s', t, k);
    case ReadRecheckStep(t, k) => ReadRecheckInv(s, s', t, k);
  }

  lemma LockInv(s: State, s': State, step: Step)
    requires Inv(s) && NextBy(s, s', step) && IsLock(step)
    ensures Inv(s')
  {
    match step
    case LockCheckStep(t, k) => LockCheckInv(s, s', t, k);
    case LockLoadStep(t, k) => LockLoadInv(s, s', t, k);
    case LockCasStep(t, k) => LockCasInv(s, s', t, k);
    case LockRecheckStep(t, k) => LockRecheckInv(s, s', t, k);
  }

  lemma InstallInv(s: State, s': State, step: Step)
    requires Inv(s) && NextBy(s, s', step) && IsInstall(step)
    ensures Inv(s')
  {
    match step
    case StoreWtsStep(t, k) => StoreWtsInv(s, s', t, k);
    case StoreWordStep(t, k) => StoreWordInv(s, s', t, k);
    case StoreDoneStep(t, k) => LetsGoInv(s, s', t, k);
    case ReleaseStep(t, k) => LetsGoInv(s, s', t, k);
  }

  lemma WholeTxnInv(s: State, s': State, step: Step)
    requires Inv(s) && NextBy(s, s', step) && !IsRead(step) && !IsLock(step) && !IsInstall(step)
    ensures Inv(s')
  {
    match step
    case BeginStep(c, t) => BeginInv(s, s', c, t);
    case LockRefuseStep(t, k, blocker) => GivesUpInv(s, s', t);
    case AbortBlockedStep(t, k, blocker) => GivesUpInv(s, s', t);
    case AbortStep(t) => GivesUpInv(s, s', t);
    case CommitStep(t, vals) => CommitInv(s, s', t, vals);
  }

  lemma NextInv(s: State, s': State)
    requires Inv(s) && Next(s, s')
    ensures Inv(s')
  {
    var step :| NextBy(s, s', step);
    if IsRead(step) { ReadInv(s, s', step); }
    else if IsLock(step) { LockInv(s, s', step); }
    else if IsInstall(step) { InstallInv(s, s', step); }
    else { WholeTxnInv(s, s', step); }
  }

  lemma {:induction false} RunInv(run: seq<State>, i: nat)
    requires Run(run) && i < |run|
    ensures Inv(run[i])
  {
    if i == 0 {
      InitInv(run[0]);
    } else {
      RunInv(run, i - 1);
      assert StepAt(run, i - 1);
      NextInv(run[i - 1], run[i]);
    }
  }
}
