/** What every step of the lease protocol keeps, as long as the run is calm. */
module SundialSafety {
  import opened Sundial

  // ---------------------------------------------------------------------------------------------
  // The invariant
  // ---------------------------------------------------------------------------------------------

  predicate Writes(s: State, id: nat, k: Key) {
    id in s.txns && k in s.txns[id].wset
  }

  ghost function CommitOf(s: State, id: nat): nat {
    if id in s.txns then s.txns[id].commit else 0
  }

  ghost function Point(s: State, id: nat): nat {
    if id in s.txns then s.txns[id].point else 0
  }

  /** The m-th value of record k: version 0 is the loader's, version m the m-th one installed. */
  ghost function Ver(s: State, k: Key, m: nat): Value
    requires k in s.recs
  {
    if m == 0 then (if k in s.init then s.init[k] else [])
    else if m <= |s.recs[k].hist| && Writes(s, s.recs[k].hist[m - 1], k) then s.txns[s.recs[k].hist[m - 1]].wset[k].val
    else []
  }

  /** ... and the time it was written. */
  ghost function WtsOf(s: State, k: Key, m: nat): nat
    requires k in s.recs
  {
    if 0 < m <= |s.recs[k].hist| then CommitOf(s, s.recs[k].hist[m - 1]) else 0
  }

  ghost predicate HistOk(s: State, k: Key, i: nat)
    requires k in s.recs && i < |s.recs[k].hist|
  {
    var id := s.recs[k].hist[i];
    && Writes(s, id, k) && Committed(s.txns[id]) && (s.txns[id].wset[k].stage.Stored? || s.txns[id].wset[k].stage.Unlocked?)
    && s.txns[id].wset[k].ver == i && 0 < CommitOf(s, id) <= s.recs[k].wts
    && forall j | i < j < |s.recs[k].hist| :: CommitOf(s, id) < CommitOf(s, s.recs[k].hist[j])
  }

  ghost predicate RecOk(s: State, k: Key)
    requires k in s.recs
  {
    var rec := s.recs[k];
    && k in s.init
    && (rec.lock != 0 ==> rec.lock in s.txns && Holds(s.txns[rec.lock], k))
    && rec.val == Ver(s, k, |rec.hist|) && rec.wts == WtsOf(s, k, |rec.hist|) && rec.wts <= rec.rts
    && (forall i {:trigger HistOk(s, k, i)} | 0 <= i < |rec.hist| :: HistOk(s, k, i))
  }

  /** The version read, and the promise that came with it: no later version starts before it ends. */
  ghost predicate ReadOk(s: State, id: nat, i: nat)
    requires id in s.txns && i < |s.txns[id].rset| && s.txns[id].rset[i].k in s.recs
  {
    var t := s.txns[id];
    var item := t.rset[i];
    var rec := s.recs[item.k];
    && item.ver <= |rec.hist| && item.wts == WtsOf(s, item.k, item.ver) && item.val == Ver(s, item.k, item.ver)
    && item.lease < (if item.ver < |rec.hist| then WtsOf(s, item.k, item.ver + 1) else rec.rts + 1)
    && (item.confirmed ==> item.wts <= t.commit)
    && (Committed(t) ==> item.k !in t.wset)
    && (forall j | Committed(t) && 0 <= j < item.ver :: Point(s, rec.hist[j]) < t.point)
  }

  ghost predicate WriteOk(s: State, id: nat, k: Key)
    requires Writes(s, id, k) && k in s.recs
  {
    var t := s.txns[id];
    var w := t.wset[k];
    var rec := s.recs[k];
    && (w.stage.Held? ==> w.ver == |rec.hist| && w.rts == rec.rts && w.base == rec.val && w.rts < t.commit)
    && (w.stage.Stored? ==> w.ver + 1 == |rec.hist|)
    && (w.stage.Stored? || w.stage.Unlocked? ==> w.ver < |rec.hist| && rec.hist[w.ver] == id && w.base == Ver(s, k, w.ver))
  }

  ghost predicate TxnKeyOk(s: State, id: nat, k: Key)
    requires id in s.txns && k in s.recs
  {
    && (Holds(s.txns[id], k) ==> s.recs[k].lock == id)
    && (k in s.txns[id].wset ==> WriteOk(s, id, k))
    && (forall i {:trigger ReadOk(s, id, i)} | 0 <= i < |s.txns[id].rset| && s.txns[id].rset[i].k == k :: ReadOk(s, id, i))
  }

  /** Which stages a write item can be in, by the phase of its transaction. */
  predicate StageFits(phase: Phase, stage: Stage) {
    match phase
    case Executing => stage.Locked? || stage.Held?
    case Renewing => stage.Held?
    case Installing => stage.Held? || stage.Stored? || stage.Unlocked?
    case Done => stage.Unlocked?
    case Aborting => stage.Locked? || stage.Held? || stage.Freed? || stage.Again?
    case Dead => stage.Freed?
  }

  ghost predicate TxnOk(s: State, id: nat)
    requires id in s.txns
  {
    var t := s.txns[id];
    && id != 0 && t.point <= s.clock && (0 < t.point <==> Committed(t))
    && t.wset.Keys <= s.recs.Keys
    && (forall k | k in t.wset :: StageFits(t.phase, t.wset[k].stage))
    && (forall i | 0 <= i < |t.rset| :: t.rset[i].k in s.recs
          && (t.phase.Renewing? ==> t.rset[i].confirmed)
          && (Committed(t) ==> t.rset[i].confirmed && t.commit <= t.rset[i].lease))
  }

  ghost predicate PointsDiffer(s: State, a: nat, b: nat) {
    a != b && 0 < Point(s, a) ==> Point(s, a) != Point(s, b)
  }

  ghost predicate KeyInv(s: State, k: Key)
    requires k in s.recs
  {
    RecOk(s, k) && forall id {:trigger TxnKeyOk(s, id, k)} | id in s.txns :: TxnKeyOk(s, id, k)
  }

  ghost predicate Inv(s: State) {
    && s.recs.Keys == s.init.Keys
    && (forall id {:trigger TxnOk(s, id)} | id in s.txns :: TxnOk(s, id))
    && (forall a, b {:trigger PointsDiffer(s, a, b)} :: PointsDiffer(s, a, b))
    && (forall k {:trigger KeyInv(s, k)} | k in s.recs :: KeyInv(s, k))
  }

  lemma Known(s: State, id: nat, k: Key)
    requires Inv(s) && id in s.txns && k in s.recs
    ensures KeyInv(s, k) && RecOk(s, k) && TxnKeyOk(s, id, k) && TxnOk(s, id)
  {
    assert KeyInv(s, k);
  }

  lemma InitInv(s: State)
    requires Init(s)
    ensures Inv(s)
  {
    forall k | k in s.recs ensures KeyInv(s, k) { }
  }

  /** Versions of a record are written at increasing times. */
  lemma WtsIncrease(s: State, k: Key, m: nat, n: nat)
    requires k in s.recs && RecOk(s, k) && m < n <= |s.recs[k].hist|
    ensures WtsOf(s, k, m) < WtsOf(s, k, n) <= s.recs[k].wts
  {
    assert HistOk(s, k, n - 1);
    if 0 < m { assert HistOk(s, k, m - 1); }
  }

  // ---------------------------------------------------------------------------------------------
  // Frames
  // ---------------------------------------------------------------------------------------------

  /** As far as record k is concerned, b is a with nothing new. */
  ghost predicate SameOn(a: Txn, b: Txn, k: Key) {
    && a.phase == b.phase && a.point == b.point && a.commit <= b.commit && (Committed(a) ==> a.commit == b.commit)
    && (k in a.wset <==> k in b.wset) && (k in a.wset ==> a.wset[k] == b.wset[k])
    && (forall i | 0 <= i < |b.rset| && b.rset[i].k == k :: i < |a.rset| && a.rset[i] == b.rset[i])
  }

  /** The installed versions of k are the same. */
  ghost predicate HistKept(s: State, s': State, k: Key) {
    && k in s.recs && k in s'.recs && s'.init == s.init && s'.recs[k].hist == s.recs[k].hist
    && forall id | id in s.recs[k].hist && Writes(s, id, k) ::
         Writes(s', id, k) && s'.txns[id].wset[k].val == s.txns[id].wset[k].val
         && CommitOf(s', id) == CommitOf(s, id) && Point(s', id) == Point(s, id)
  }

  lemma VersKept(s: State, s': State, k: Key)
    requires HistKept(s, s', k) && RecOk(s, k)
    ensures forall m: nat | m <= |s.recs[k].hist| :: Ver(s', k, m) == Ver(s, k, m) && WtsOf(s', k, m) == WtsOf(s, k, m)
    ensures forall j | 0 <= j < |s.recs[k].hist| :: Point(s', s.recs[k].hist[j]) == Point(s, s.recs[k].hist[j])
    ensures forall j | 0 <= j < |s.recs[k].hist| :: CommitOf(s', s.recs[k].hist[j]) == CommitOf(s, s.recs[k].hist[j])
  {
    forall m: nat | m <= |s.recs[k].hist|
      ensures Ver(s', k, m) == Ver(s, k, m) && WtsOf(s', k, m) == WtsOf(s, k, m)
    {
      if 0 < m { assert HistOk(s, k, m - 1); }
    }
    forall j | 0 <= j < |s.recs[k].hist|
      ensures Point(s', s.recs[k].hist[j]) == Point(s, s.recs[k].hist[j])
              && CommitOf(s', s.recs[k].hist[j]) == CommitOf(s, s.recs[k].hist[j])
    {
      assert HistOk(s, k, j);
    }
  }

  /** The record may have been locked or freed by somebody else, and its lease extended while free. */
  lemma TxnKeyFrame(s: State, s': State, id: nat, k: Key)
    requires id in s.txns && id in s'.txns && k in s.recs && SameOn(s.txns[id], s'.txns[id], k)
    requires HistKept(s, s', k) && RecOk(s, k) && s'.recs[k].val == s.recs[k].val && s.recs[k].rts <= s'.recs[k].rts
    requires (s'.recs[k].rts == s.recs[k].rts && s'.recs[k].lock == s.recs[k].lock) || !Holds(s.txns[id], k)
    requires TxnKeyOk(s, id, k)
    ensures TxnKeyOk(s', id, k)
  {
    VersKept(s, s', k);
    forall i | 0 <= i < |s'.txns[id].rset| && s'.txns[id].rset[i].k == k ensures ReadOk(s', id, i) {
      assert ReadOk(s, id, i);
    }
  }

  /** Nothing about record k changed. */
  ghost predicate Untouched(s: State, s': State, k: Key) {
    && k in s.recs && k in s'.recs && s'.recs[k] == s.recs[k] && s'.init == s.init
    && s.txns.Keys == s'.txns.Keys
    && forall id | id in s.txns :: SameOn(s.txns[id], s'.txns[id], k)
  }

  lemma HistOkKept(s: State, s': State, k: Key)
    requires HistKept(s, s', k) && RecOk(s, k) && s'.recs[k].wts == s.recs[k].wts
    requires forall id | id in s.recs[k].hist && id in s.txns && id in s'.txns && Writes(s, id, k) ::
               s'.txns[id].wset[k].ver == s.txns[id].wset[k].ver && (Committed(s.txns[id]) ==> Committed(s'.txns[id]))
               && (s.txns[id].wset[k].stage.Stored? || s.txns[id].wset[k].stage.Unlocked? ==>
                     s'.txns[id].wset[k].stage.Stored? || s'.txns[id].wset[k].stage.Unlocked?)
    ensures forall i {:trigger HistOk(s', k, i)} | 0 <= i < |s'.recs[k].hist| :: HistOk(s', k, i)
  {
    VersKept(s, s', k);
    forall i | 0 <= i < |s'.recs[k].hist| ensures HistOk(s', k, i) { assert HistOk(s, k, i); }
  }

  lemma UntouchedKey(s: State, s': State, k: Key)
    requires Untouched(s, s', k) && KeyInv(s, k)
    ensures KeyInv(s', k)
  {
    forall i | 0 <= i < |s.recs[k].hist| ensures s.recs[k].hist[i] in s.txns && Committed(s.txns[s.recs[k].hist[i]]) {
      assert HistOk(s, k, i);
    }
    assert HistKept(s, s', k);
    VersKept(s, s', k);
    HistOkKept(s, s', k);
    forall id | id in s'.txns ensures TxnKeyOk(s', id, k) {
      assert TxnKeyOk(s, id, k);
      TxnKeyFrame(s, s', id, k);
    }
  }

  /** Every transaction other than id is as before. */
  ghost predicate OthersKept(s: State, s': State, id: nat) {
    && s'.init == s.init && s'.txns.Keys == s.txns.Keys && id in s.txns
    && forall x | x in s.txns && x != id :: s'.txns[x] == s.txns[x]
  }

  lemma NotInstalled(s: State, id: nat, k: Key)
    requires k in s.recs && RecOk(s, k) && id in s.txns
    requires !Committed(s.txns[id]) || !Writes(s, id, k) || s.txns[id].wset[k].stage.Held?
    ensures id !in s.recs[k].hist
  {
    forall i | 0 <= i < |s.recs[k].hist| ensures s.recs[k].hist[i] != id { assert HistOk(s, k, i); }
  }

  /** What the other transactions know about k survives. */
  lemma OthersOk(s: State, s': State, id: nat, k: Key)
    requires Inv(s) && OthersKept(s, s', id) && k in s.recs && HistKept(s, s', k)
    requires s'.recs[k].val == s.recs[k].val && s.recs[k].rts <= s'.recs[k].rts
    requires s'.recs[k].rts == s.recs[k].rts || s.recs[k].lock == 0
    requires s'.recs[k].lock == s.recs[k].lock || s.recs[k].lock == 0 || s.recs[k].lock == id
    ensures forall x | x in s'.txns && x != id :: TxnKeyOk(s', x, k)
  {
    forall x | x in s'.txns && x != id ensures TxnKeyOk(s', x, k) {
      Known(s, x, k);
      TxnKeyFrame(s, s', x, k);
    }
  }

  /** A step of an uncommitted transaction that does not write record k. */
  lemma RecKept(s: State, s': State, id: nat, k: Key)
    requires k in s.recs && k in s'.recs && OthersKept(s, s', id) && RecOk(s, k)
    requires !Committed(s.txns[id])
    requires s'.recs[k] == s.recs[k].(lock := s'.recs[k].lock, rts := s'.recs[k].rts) && s.recs[k].rts <= s'.recs[k].rts
    requires s'.recs[k].lock != 0 ==> s'.recs[k].lock in s'.txns && Holds(s'.txns[s'.recs[k].lock], k)
    ensures RecOk(s', k) && HistKept(s, s', k)
  {
    NotInstalled(s, id, k);
    VersKept(s, s', k);
    HistOkKept(s, s', k);
  }

  // ---------------------------------------------------------------------------------------------
  // Steps of one transaction on one record
  // ---------------------------------------------------------------------------------------------

  ghost predicate LocalTo(s: State, s': State, id: nat, k: Key) {
    && k in s.recs && k in s'.recs && id in s.txns && id in s'.txns
    && s'.init == s.init && s'.clock == s.clock
    && s'.recs == s.recs[k := s'.recs[k]]
    && s'.txns == s.txns[id := s'.txns[id]]
    && s'.txns[id].point == s.txns[id].point
    && forall j | j != k :: SameOn(s.txns[id], s'.txns[id], j)
  }

  lemma LocalElsewhere(s: State, s': State, id: nat, k: Key, j: Key)
    requires LocalTo(s, s', id, k) && j in s.recs && j != k && KeyInv(s, j)
    ensures j in s'.recs && KeyInv(s', j)
  {
    assert Untouched(s, s', j);
    UntouchedKey(s, s', j);
  }

  lemma LocalInv(s: State, s': State, id: nat, k: Key)
    requires Inv(s) && LocalTo(s, s', id, k) && TxnOk(s', id)
    requires RecOk(s', k) && TxnKeyOk(s', id, k) && forall x | x in s'.txns && x != id :: TxnKeyOk(s', x, k)
    ensures Inv(s')
  {
    forall x | x in s'.txns ensures TxnOk(s', x) { assert TxnOk(s, x); }
    forall a, b ensures PointsDiffer(s', a, b) { assert PointsDiffer(s, a, b); }
    forall j | j in s'.recs ensures KeyInv(s', j) {
      assert KeyInv(s, j);
      if j != k { LocalElsewhere(s, s', id, k, j); }
    }
  }

  /** A step that changes one item of a read set, and no record. */
  lemma ItemInv(s: State, s': State, id: nat, i: nat, k: Key)
    requires Inv(s) && LocalTo(s, s', id, k) && s'.recs == s.recs && !Committed(s.txns[id]) && TxnOk(s', id)
    requires i < |s'.txns[id].rset| && s'.txns[id].rset[i].k == k && ReadOk(s', id, i)
    requires SameOn(s.txns[id].(rset := []), s'.txns[id].(rset := []), k)
    requires forall j | 0 <= j < |s'.txns[id].rset| && j != i :: j < |s.txns[id].rset| && s'.txns[id].rset[j] == s.txns[id].rset[j]
    ensures Inv(s')
  {
    Known(s, id, k);
    if s.recs[k].lock != 0 { assert Holds(s'.txns[s.recs[k].lock], k); }
    RecKept(s, s', id, k);
    OthersOk(s, s', id, k);
    VersKept(s, s', k);
    forall j | 0 <= j < |s'.txns[id].rset| && s'.txns[id].rset[j].k == k ensures ReadOk(s', id, j) {
      if j != i { assert ReadOk(s, id, j); }
    }
    LocalInv(s, s', id, k);
  }

  lemma FetchInv(s: State, s': State, id: nat, k: Key)
    requires Inv(s) && Fetch(s, s', id, k)
    ensures Inv(s')
  {
    Known(s, id, k);
    var i := |s.txns[id].rset|;
    NotInstalled(s, id, k);
    assert HistKept(s, s', k);
    VersKept(s, s', k);
    assert ReadOk(s', id, i);
    ItemInv(s, s', id, i, k);
  }

  lemma ConfirmInv(s: State, s': State, id: nat, i: nat)
    requires Inv(s) && Confirm(s, s', id, i)
    ensures Inv(s')
  {
    var k := s.txns[id].rset[i].k;
    Known(s, id, k);
    assert ReadOk(s, id, i);
    ItemRead(s, s', id, i, k);
    ItemInv(s, s', id, i, k);
  }

  lemma RenewLoadInv(s: State, s': State, id: nat, i: nat)
    requires Inv(s) && (RenewLock(s, s', id, i) || RenewPass(s, s', id, i) || RenewFail(s, s', id, i))
    ensures Inv(s')
  {
    var k := s.txns[id].rset[i].k;
    Known(s, id, k);
    assert ReadOk(s, id, i);
    ItemRead(s, s', id, i, k);
    ItemInv(s, s', id, i, k);
  }

  lemma RenewKeepInv(s: State, s': State, id: nat, i: nat)
    requires Inv(s) && RenewKeep(s, s', id, i)
    ensures Inv(s')
  {
    var k := s.txns[id].rset[i].k;
    Known(s, id, k);
    assert ReadOk(s, id, i);
    SameWtsSameVersion(s, id, i);
    ItemRead(s, s', id, i, k);
    ItemInv(s, s', id, i, k);
  }

  /** The item still names the same version, and its lease is still one the record has given. */
  lemma ItemRead(s: State, s': State, id: nat, i: nat, k: Key)
    requires Inv(s) && OthersKept(s, s', id) && id in s'.txns && s'.recs == s.recs && !Committed(s.txns[id]) && !Committed(s'.txns[id])
    requires SameOn(s.txns[id].(rset := []), s'.txns[id].(rset := []), k)
    requires i < |s.txns[id].rset| == |s'.txns[id].rset| && k in s.recs
    requires s.txns[id].rset[i].k == k && ReadOk(s, id, i)
    requires var item, item' := s.txns[id].rset[i], s'.txns[id].rset[i];
             && item' == item.(confirmed := item'.confirmed, renewal := item'.renewal, lease := item'.lease)
             && (item'.confirmed ==> item.confirmed || item.wts <= s'.txns[id].commit)
             && (item'.lease == item.lease || (item'.lease <= s.recs[k].rts && item.ver == |s.recs[k].hist|))
    ensures ReadOk(s', id, i)
  {
    Known(s, id, k);
    NotInstalled(s, id, k);
    assert HistKept(s, s', k);
    VersKept(s, s', k);
  }

  /** If the record still has the write time of the version that was read, it still is that version. */
  lemma SameWtsSameVersion(s: State, id: nat, i: nat)
    requires Inv(s) && id in s.txns && i < |s.txns[id].rset| && s.txns[id].rset[i].k in s.recs
    ensures var item := s.txns[id].rset[i];
            s.recs[item.k].wts == item.wts ==> item.ver == |s.recs[item.k].hist|
  {
    var item := s.txns[id].rset[i];
    Known(s, id, item.k);
    assert ReadOk(s, id, i);
    if item.ver < |s.recs[item.k].hist| { WtsIncrease(s, item.k, item.ver, |s.recs[item.k].hist|); }
  }

  /** The lease is extended on an unlocked record: nobody's promise gets shorter. */
  lemma RenewStoreInv(s: State, s': State, id: nat, i: nat)
    requires Inv(s) && RenewStore(s, s', id, i) && s'.calm
    ensures Inv(s')
  {
    var k := s.txns[id].rset[i].k;
    Known(s, id, k);
    SameWtsSameVersion(s, id, i);
    RecKept(s, s', id, k);
    OthersOk(s, s', id, k);
    RenewStoreOwn(s, s', id, i, k);
    LocalInv(s, s', id, k);
  }

  lemma RenewStoreOwn(s: State, s': State, id: nat, i: nat, k: Key)
    requires Inv(s) && RenewStore(s, s', id, i) && s'.calm && s.txns[id].rset[i].k == k && HistKept(s, s', k)
    ensures TxnKeyOk(s', id, k)
  {
    Known(s, id, k);
    SameWtsSameVersion(s, id, i);
    VersKept(s, s', k);
    forall j | 0 <= j < |s'.txns[id].rset| && s'.txns[id].rset[j].k == k ensures ReadOk(s', id, j) {
      assert ReadOk(s, id, j);
    }
  }

  /** A step that changes an uncommitted transaction's item in the write set. */
  lemma OwnWrite(s: State, s': State, id: nat, k: Key)
    requires Inv(s) && id in s.txns && id in s'.txns && k in s.recs && HistKept(s, s', k)
    requires s'.txns[id].rset == s.txns[id].rset && s'.txns[id].point == s.txns[id].point
    requires s.txns[id].commit <= s'.txns[id].commit && !Committed(s.txns[id]) && !Committed(s'.txns[id])
    requires s'.recs[k].rts == s.recs[k].rts
    requires k in s'.txns[id].wset && WriteOk(s', id, k) && (Holds(s'.txns[id], k) ==> s'.recs[k].lock == id)
    ensures TxnKeyOk(s', id, k)
  {
    Known(s, id, k);
    VersKept(s, s', k);
    forall i | 0 <= i < |s'.txns[id].rset| && s'.txns[id].rset[i].k == k ensures ReadOk(s', id, i) {
      assert ReadOk(s, id, i);
    }
  }

  lemma LockCasInv(s: State, s': State, id: nat, k: Key)
    requires Inv(s) && LockCas(s, s', id, k)
    ensures Inv(s')
  {
    Known(s, id, k);
    RecKept(s, s', id, k);
    OthersOk(s, s', id, k);
    OwnWrite(s, s', id, k);
    LocalInv(s, s', id, k);
  }

  lemma LockReadInv(s: State, s': State, id: nat, k: Key)
    requires Inv(s) && LockRead(s, s', id, k)
    ensures Inv(s')
  {
    Known(s, id, k);
    RecKept(s, s', id, k);
    OthersOk(s, s', id, k);
    OwnWrite(s, s', id, k);
    LocalInv(s, s', id, k);
  }

  /** A calm release frees the transaction's own lock, or one that is free already. */
  lemma ReleaseInv(s: State, s': State, id: nat, k: Key)
    requires Inv(s) && Release(s, s', id, k) && s'.calm
    ensures Inv(s')
  {
    Known(s, id, k);
    RecKept(s, s', id, k);
    OthersOk(s, s', id, k);
    OwnWrite(s, s', id, k);
    LocalInv(s, s', id, k);
  }

  // ---------------------------------------------------------------------------------------------
  // Installing
  // ---------------------------------------------------------------------------------------------

  /** A committed transaction does not read what it writes. */
  lemma ReadsElsewhere(s: State, id: nat, k: Key)
    requires Inv(s) && Writes(s, id, k) && Committed(s.txns[id])
    ensures forall i | 0 <= i < |s.txns[id].rset| :: s.txns[id].rset[i].k != k
  {
    assert TxnOk(s, id);
    forall i | 0 <= i < |s.txns[id].rset| ensures s.txns[id].rset[i].k !in s.txns[id].wset {
      Known(s, id, s.txns[id].rset[i].k);
      assert ReadOk(s, id, i);
    }
  }

  /** The new version is the next one, and all the old ones are unchanged. */
  lemma InstallVers(s: State, s': State, id: nat, k: Key)
    requires Inv(s) && Install(s, s', id, k)
    ensures id !in s.recs[k].hist
    ensures forall m: nat | m <= |s.recs[k].hist| :: Ver(s', k, m) == Ver(s, k, m) && WtsOf(s', k, m) == WtsOf(s, k, m)
    ensures Ver(s', k, |s.recs[k].hist| + 1) == s.txns[id].wset[k].val && WtsOf(s', k, |s.recs[k].hist| + 1) == s.txns[id].commit
    ensures forall x :: Point(s', x) == Point(s, x) && CommitOf(s', x) == CommitOf(s, x)
  {
    Known(s, id, k);
    NotInstalled(s, id, k);
    forall m: nat | m <= |s.recs[k].hist| ensures Ver(s', k, m) == Ver(s, k, m) && WtsOf(s', k, m) == WtsOf(s, k, m) {
      if 0 < m { assert HistOk(s, k, m - 1); }
    }
  }

  lemma InstallRec(s: State, s': State, id: nat, k: Key)
    requires Inv(s) && Install(s, s', id, k)
    ensures RecOk(s', k)
  {
    Known(s, id, k);
    InstallVers(s, s', id, k);
    forall i | 0 <= i < |s'.recs[k].hist| ensures HistOk(s', k, i) {
      if i < |s.recs[k].hist| { assert HistOk(s, k, i); }
    }
  }

  /** The installed version starts after every promise about the one before. */
  lemma InstallOther(s: State, s': State, id: nat, x: nat, k: Key)
    requires Inv(s) && Install(s, s', id, k) && x in s.txns && x != id
    ensures TxnKeyOk(s', x, k)
  {
    Known(s, id, k);
    Known(s, x, k);
    InstallVers(s, s', id, k);
    forall i | 0 <= i < |s'.txns[x].rset| && s'.txns[x].rset[i].k == k ensures ReadOk(s', x, i) {
      assert ReadOk(s, x, i);
    }
  }

  lemma InstallOwn(s: State, s': State, id: nat, k: Key)
    requires Inv(s) && Install(s, s', id, k)
    ensures TxnKeyOk(s', id, k)
  {
    Known(s, id, k);
    InstallVers(s, s', id, k);
    ReadsElsewhere(s, id, k);
  }

  lemma InstallInv(s: State, s': State, id: nat, k: Key)
    requires Inv(s) && Install(s, s', id, k)
    ensures Inv(s')
  {
    Known(s, id, k);
    InstallRec(s, s', id, k);
    InstallOwn(s, s', id, k);
    forall x | x in s'.txns && x != id ensures TxnKeyOk(s', x, k) { InstallOther(s, s', id, x, k); }
    LocalInv(s, s', id, k);
  }

  lemma UnlockOwn(s: State, s': State, id: nat, k: Key)
    requires Inv(s) && Unlock(s, s', id, k) && HistKept(s, s', k)
    ensures TxnKeyOk(s', id, k)
  {
    Known(s, id, k);
    VersKept(s, s', k);
    ReadsElsewhere(s, id, k);
  }

  lemma UnlockInv(s: State, s': State, id: nat, k: Key)
    requires Inv(s) && Unlock(s, s', id, k)
    ensures Inv(s')
  {
    Known(s, id, k);
    assert HistKept(s, s', k);
    VersKept(s, s', k);
    HistOkKept(s, s', k);
    OthersOk(s, s', id, k);
    UnlockOwn(s, s', id, k);
    LocalInv(s, s', id, k);
  }

  // ---------------------------------------------------------------------------------------------
  // Steps of a whole transaction
  // ---------------------------------------------------------------------------------------------

  /** Only id's own state changed, and perhaps the clock. */
  ghost predicate WholeStep(s: State, s': State, id: nat) {
    && OthersKept(s, s', id) && id in s'.txns && s'.recs == s.recs && s.clock <= s'.clock
    && s'.txns[id].rset == s.txns[id].rset && s'.txns[id].wset.Keys == s.txns[id].wset.Keys && s'.txns[id].commit == s.txns[id].commit
  }

  lemma WholeInv(s: State, s': State, id: nat)
    requires Inv(s) && WholeStep(s, s', id) && TxnOk(s', id)
    requires Point(s', id) == Point(s, id) || s.clock < Point(s', id)
    requires forall k | k in s.recs :: RecOk(s', k) && HistKept(s, s', k) && TxnKeyOk(s', id, k)
    ensures Inv(s')
  {
    forall x | x in s'.txns ensures TxnOk(s', x) { assert TxnOk(s, x); }
    forall a, b ensures PointsDiffer(s', a, b) {
      assert PointsDiffer(s, a, b);
      if a in s.txns && b in s.txns { assert TxnOk(s, a) && TxnOk(s, b); }
    }
    forall k | k in s'.recs ensures KeyInv(s', k) { OthersOk(s, s', id, k); }
  }

  /** A step that may change a transaction's phase and the values it is going to write. */
  lemma PhaseKey(s: State, s': State, id: nat, k: Key)
    requires Inv(s) && WholeStep(s, s', id) && k in s.recs && Point(s', id) == Point(s, id)
    requires !Committed(s'.txns[id]) || Committed(s.txns[id])
    requires k in s.txns[id].wset ==>
               s'.txns[id].wset[k] == s.txns[id].wset[k].(val := s'.txns[id].wset[k].val)
               || (!Committed(s.txns[id]) && s'.txns[id].wset[k].stage.Again? && !Holds(s.txns[id], k))
    requires Committed(s.txns[id]) ==> s'.txns[id].wset == s.txns[id].wset && Committed(s'.txns[id])
    ensures RecOk(s', k) && HistKept(s, s', k) && TxnKeyOk(s', id, k)
  {
    Known(s, id, k);
    if !Committed(s.txns[id]) { NotInstalled(s, id, k); }
    assert HistKept(s, s', k);
    VersKept(s, s', k);
    HistOkKept(s, s', k);
    forall i | 0 <= i < |s'.txns[id].rset| && s'.txns[id].rset[i].k == k ensures ReadOk(s', id, i) {
      assert ReadOk(s, id, i);
    }
  }

  lemma PrepareInv(s: State, s': State, id: nat, vals: map<Key, Value>)
    requires Inv(s) && Prepare(s, s', id, vals)
    ensures Inv(s')
  {
    assert TxnOk(s, id);
    forall k | k in s.recs ensures RecOk(s', k) && HistKept(s, s', k) && TxnKeyOk(s', id, k) { PhaseKey(s, s', id, k); }
    WholeInv(s, s', id);
  }

  lemma AbortTxn(s: State, s': State, id: nat)
    requires id in s.txns && TxnOk(s, id) && id in s'.txns && s'.recs == s.recs && s'.clock == s.clock
    requires s'.txns[id] == s.txns[id].(phase := Aborting, rounds := s'.txns[id].rounds)
    requires s.txns[id].phase.Executing? || s.txns[id].phase.Renewing?
    ensures TxnOk(s', id)
  {
    forall k | k in s'.txns[id].wset ensures StageFits(Aborting, s'.txns[id].wset[k].stage) {
      assert StageFits(s.txns[id].phase, s.txns[id].wset[k].stage);
    }
  }

  lemma AbortInv(s: State, s': State, id: nat)
    requires Inv(s) && (Abort(s, s', id) || GiveUp(s, s', id))
    ensures Inv(s')
  {
    assert TxnOk(s, id);
    AbortTxn(s, s', id);
    forall k | k in s.recs ensures RecOk(s', k) && HistKept(s, s', k) && TxnKeyOk(s', id, k) { PhaseKey(s, s', id, k); }
    WholeInv(s, s', id);
  }

  lemma NextRoundInv(s: State, s': State, id: nat)
    requires Inv(s) && NextRound(s, s', id)
    ensures Inv(s')
  {
    assert TxnOk(s, id);
    forall k | k in s.recs ensures RecOk(s', k) && HistKept(s, s', k) && TxnKeyOk(s', id, k) { PhaseKey(s, s', id, k); }
    WholeInv(s, s', id);
  }

  lemma OverInv(s: State, s': State, id: nat)
    requires Inv(s) && (Finish(s, s', id) || Die(s, s', id))
    ensures Inv(s')
  {
    assert TxnOk(s, id);
    forall k | k in s.recs ensures RecOk(s', k) && HistKept(s, s', k) && TxnKeyOk(s', id, k) { PhaseKey(s, s', id, k); }
    WholeInv(s, s', id);
  }

  /** At its decision a transaction comes after everything installed so far, and its leases rule out
      that it reads what it writes. */
  lemma DecideRead(s: State, s': State, id: nat, i: nat)
    requires Inv(s) && Decide(s, s', id) && i < |s.txns[id].rset| && s.txns[id].rset[i].k in s.recs
    requires HistKept(s, s', s.txns[id].rset[i].k)
    ensures ReadOk(s', id, i)
  {
    var item := s.txns[id].rset[i];
    var k := item.k;
    Known(s, id, k);
    assert ReadOk(s, id, i);
    VersKept(s, s', k);
    forall j | 0 <= j < |s.recs[k].hist| ensures Point(s, s.recs[k].hist[j]) <= s.clock {
      assert HistOk(s, k, j) && TxnOk(s, s.recs[k].hist[j]);
    }
    assert k !in s.txns[id].wset by {
      if item.ver < |s.recs[k].hist| { assert HistOk(s, k, item.ver); }
    }
  }

  lemma DecideKey(s: State, s': State, id: nat, k: Key)
    requires Inv(s) && Decide(s, s', id) && k in s.recs
    ensures RecOk(s', k) && HistKept(s, s', k) && TxnKeyOk(s', id, k)
  {
    Known(s, id, k);
    NotInstalled(s, id, k);
    assert HistKept(s, s', k);
    VersKept(s, s', k);
    HistOkKept(s, s', k);
    forall i | 0 <= i < |s'.txns[id].rset| && s'.txns[id].rset[i].k == k ensures ReadOk(s', id, i) {
      DecideRead(s, s', id, i);
    }
  }

  lemma DecideInv(s: State, s': State, id: nat)
    requires Inv(s) && Decide(s, s', id)
    ensures Inv(s')
  {
    assert TxnOk(s, id);
    forall k | k in s.recs ensures RecOk(s', k) && HistKept(s, s', k) && TxnKeyOk(s', id, k) { DecideKey(s, s', id, k); }
    WholeInv(s, s', id);
  }

  lemma BeginKey(s: State, s': State, c: nat, id: nat, k: Key)
    requires Inv(s) && Begin(s, s', c, id) && k in s.recs
    ensures KeyInv(s', k)
  {
    assert KeyInv(s, k) && RecOk(s, k);
    assert HistKept(s, s', k);
    VersKept(s, s', k);
    HistOkKept(s, s', k);
    forall x | x in s'.txns ensures TxnKeyOk(s', x, k) {
      if x != id {
        Known(s, x, k);
        TxnKeyFrame(s, s', x, k);
      }
    }
  }

  lemma BeginInv(s: State, s': State, c: nat, id: nat)
    requires Inv(s) && Begin(s, s', c, id)
    ensures Inv(s')
  {
    forall x | x in s'.txns ensures TxnOk(s', x) { if x != id { assert TxnOk(s, x); } }
    forall a, b ensures PointsDiffer(s', a, b) { assert PointsDiffer(s, a, b); }
    forall k | k in s'.recs ensures KeyInv(s', k) { BeginKey(s, s', c, id, k); }
  }

  // ---------------------------------------------------------------------------------------------
  // Every step, every run
  // ---------------------------------------------------------------------------------------------

  predicate IsWhole(step: Step) {
    || step.BeginStep? || step.PrepareStep? || step.GiveUpStep? || step.DecideStep? || step.FinishStep?
    || step.AbortStep? || step.NextRoundStep? || step.DieStep?
  }

  lemma WholeStepInv(s: State, s': State, step: Step)
    requires Inv(s) && NextBy(s, s', step) && IsWhole(step)
    ensures Inv(s')
  {
    match step
    case BeginStep(c, id) => BeginInv(s, s', c, id);
    case PrepareStep(id, vals) => PrepareInv(s, s', id, vals);
    case GiveUpStep(id) => AbortInv(s, s', id);
    case DecideStep(id) => DecideInv(s, s', id);
    case FinishStep(id) => OverInv(s, s', id);
    case AbortStep(id) => AbortInv(s, s', id);
    case NextRoundStep(id) => NextRoundInv(s, s', id);
    case DieStep(id) => OverInv(s, s', id);
  }

  lemma LocalStepInv(s: State, s': State, step: Step)
    requires Inv(s) && NextBy(s, s', step) && !IsWhole(step) && s'.calm
    ensures Inv(s')
  {
    match step
    case FetchStep(id, k) => FetchInv(s, s', id, k);
    case ConfirmStep(id, i) => ConfirmInv(s, s', id, i);
    case LockCasStep(id, k) => LockCasInv(s, s', id, k);
    case LockReadStep(id, k) => LockReadInv(s, s', id, k);
    case RenewLockStep(id, i) => RenewLoadInv(s, s', id, i);
    case RenewKeepStep(id, i) => RenewKeepInv(s, s', id, i);
    case RenewPassStep(id, i) => RenewLoadInv(s, s', id, i);
    case RenewFailStep(id, i) => RenewLoadInv(s, s', id, i);
    case RenewStoreStep(id, i) => RenewStoreInv(s, s', id, i);
    case InstallStep(id, k) => InstallInv(s, s', id, k);
    case UnlockStep(id, k) => UnlockInv(s, s', id, k);
    case ReleaseStep(id, k) => ReleaseInv(s, s', id, k);
  }

  lemma NextInv(s: State, s': State)
    requires Inv(s) && Next(s, s') && s'.calm
    ensures Inv(s')
  {
    var step :| NextBy(s, s', step);
    if IsWhole(step) { WholeStepInv(s, s', step); } else { LocalStepInv(s, s', step); }
  }

  /** A run that is calm now has always been. */
  lemma CalmBefore(s: State, s': State)
    requires Next(s, s') && s'.calm
    ensures s.calm
  {
    var step :| NextBy(s, s', step);
    if IsWhole(step) { WholeCalm(s, s', step); } else { LocalCalm(s, s', step); }
  }

  lemma WholeCalm(s: State, s': State, step: Step)
    requires NextBy(s, s', step) && s'.calm && IsWhole(step)
    ensures s.calm
  {
  }

  lemma LocalCalm(s: State, s': State, step: Step)
    requires NextBy(s, s', step) && s'.calm && !IsWhole(step)
    ensures s.calm
  {
  }

  lemma {:induction false} RunInv(run: seq<State>, i: nat)
    requires Run(run) && i < |run| && run[i].calm
    ensures Inv(run[i])
  {
    if i == 0 {
      InitInv(run[0]);
    } else {
      assert StepAt(run, i - 1);
      CalmBefore(run[i - 1], run[i]);
      RunInv(run, i - 1);
      NextInv(run[i - 1], run[i]);
    }
  }
}
