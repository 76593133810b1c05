/** When a run of the lease protocol is calm: in terms of the renewals and releases that happen in it. */
module SundialCalm {
  import opened Sundial
  import opened SundialSafety

  ghost predicate StoresAt(run: seq<State>, i: nat, id: nat, r: nat)
    requires i + 1 < |run|
  {
    RenewStore(run[i], run[i + 1], id, r)
  }

  /** The record is locked, has a newer version than the one read, or is promised for longer. */
  predicate Overtaken(s: State, id: nat, r: nat) {
    id in s.txns && r < |s.txns[id].rset| && s.txns[id].rset[r].k in s.recs
    && var item := s.txns[id].rset[r];
    && var rec := s.recs[item.k];
    rec.lock != 0 || item.ver < |rec.hist| || s.txns[id].commit < rec.rts
  }

  /** A release is repeated and finds the record locked. */
  ghost predicate FreesForeign(run: seq<State>, i: nat, id: nat, k: Key)
    requires i + 1 < |run|
  {
    Release(run[i], run[i + 1], id, k) && run[i].txns[id].wset[k].stage == Again && run[i].recs[k].lock != 0
  }

  ghost predicate QuietAt(run: seq<State>, i: nat)
    requires i + 1 < |run|
  {
    && (forall id, r | StoresAt(run, i, id, r) :: !Overtaken(run[i], id, r))
    && (forall id, k :: !FreesForeign(run, i, id, k))
  }

  /** While a run is calm, a release can only disturb it when it is a repetition, sent by commit after
      prepare has already released, and another transaction has locked the record in between. */
  lemma OnlyRepeatedReleaseDisturbs(run: seq<State>, i: nat, id: nat, k: Key)
    requires Run(run) && i + 1 < |run| && run[i].calm && Release(run[i], run[i + 1], id, k)
    ensures run[i + 1].calm <==> !FreesForeign(run, i, id, k)
    ensures run[i].txns[id].wset[k].stage == Again ==> run[i].recs[k].lock != id
  {
    RunInv(run, i);
    Known(run[i], id, k);
  }

  /** ... and the store of a renewal, when since its loads somebody has locked or overwritten the
      record, or extended its lease further. */
  lemma OnlyOvertakenRenewalDisturbs(run: seq<State>, i: nat, id: nat, r: nat)
    requires Run(run) && i + 1 < |run| && run[i].calm && StoresAt(run, i, id, r)
    ensures run[i + 1].calm <==> !Overtaken(run[i], id, r)
  {
    RunInv(run, i);
    SameWtsSameVersion(run[i], id, r);
    var item := run[i].txns[id].rset[r];
    Known(run[i], id, item.k);
    assert ReadOk(run[i], id, r);
  }

  lemma OthersStayCalm(s: State, s': State, step: Step)
    requires NextBy(s, s', step) && !step.RenewStoreStep? && !step.ReleaseStep?
    ensures s'.calm == s.calm
  {
  }

  lemma QuietStepIsCalm(run: seq<State>, i: nat, step: Step)
    requires Run(run) && i + 1 < |run| && run[i].calm && QuietAt(run, i) && NextBy(run[i], run[i + 1], step)
    ensures run[i + 1].calm
  {
    if step.RenewStoreStep? {
      assert StoresAt(run, i, step.id, step.i);
      OnlyOvertakenRenewalDisturbs(run, i, step.id, step.i);
    } else if step.ReleaseStep? {
      OnlyRepeatedReleaseDisturbs(run, i, step.id, step.k);
    } else {
      OthersStayCalm(run[i], run[i + 1], step);
    }
  }

  lemma CalmStepIsQuiet(run: seq<State>, i: nat)
    requires Run(run) && i + 1 < |run| && run[i].calm && run[i + 1].calm
    ensures QuietAt(run, i)
  {
    var s, s' := run[i], run[i + 1];
    forall id, r | StoresAt(run, i, id, r) ensures !Overtaken(s, id, r) {
      OnlyOvertakenRenewalDisturbs(run, i, id, r);
    }
    forall id, k ensures !FreesForeign(run, i, id, k) {
      if Release(s, s', id, k) { OnlyRepeatedReleaseDisturbs(run, i, id, k); }
    }
  }

  lemma CalmMeansQuiet(run: seq<State>, i: nat)
    requires Run(run) && i + 1 < |run| && run[i].calm
    ensures run[i + 1].calm <==> QuietAt(run, i)
  {
    assert StepAt(run, i);
    var step :| NextBy(run[i], run[i + 1], step);
    if QuietAt(run, i) { QuietStepIsCalm(run, i, step); }
    if run[i + 1].calm { CalmStepIsQuiet(run, i); }
  }

  /** A run is calm exactly if no store of a renewal was overtaken and no repeated release found
      somebody else's lock. */
  lemma {:induction false} CalmMeans(run: seq<State>, i: nat)
    requires Run(run) && i < |run|
    ensures run[i].calm <==> forall j | 0 <= j < i :: QuietAt(run, j)
  {
    if i > 0 {
      CalmMeans(run, i - 1);
      assert StepAt(run, i - 1);
      if run[i].calm { CalmBefore(run[i - 1], run[i]); }
      if run[i - 1].calm { CalmMeansQuiet(run, i - 1); }
    }
  }

  // ---------------------------------------------------------------------------------------------
  // Atomic renewal
  // ---------------------------------------------------------------------------------------------

  /** The store of a renewal comes right after its two loads. */
  ghost predicate InOneGo(run: seq<State>, i: nat, id: nat, r: nat)
    requires i < |run|
  {
    2 <= i && RenewLock(run[i - 2], run[i - 1], id, r) && RenewPass(run[i - 1], run[i], id, r)
  }

  /** Renewals are atomic, and no repeated release finds somebody else's lock. */
  ghost predicate Orderly(run: seq<State>) {
    && (forall i: nat, id, r | i + 1 < |run| && StoresAt(run, i, id, r) :: InOneGo(run, i, id, r))
    && (forall i: nat, id, k | i + 1 < |run| :: !FreesForeign(run, i, id, k))
  }

  lemma AtomicIsNotOvertaken(s0: State, s1: State, s: State, s': State, id: nat, r: nat)
    requires RenewLock(s0, s1, id, r) && RenewPass(s1, s, id, r) && RenewStore(s, s', id, r) && s.calm
    ensures s'.calm
  {
  }

  lemma OrderlyIsQuiet(run: seq<State>, i: nat)
    requires Run(run) && Orderly(run) && i + 1 < |run| && run[i].calm
    ensures QuietAt(run, i)
  {
    forall id, r | StoresAt(run, i, id, r) ensures !Overtaken(run[i], id, r) {
      assert InOneGo(run, i, id, r);
      AtomicIsNotOvertaken(run[i - 2], run[i - 1], run[i], run[i + 1], id, r);
      OnlyOvertakenRenewalDisturbs(run, i, id, r);
    }
  }

  lemma {:induction false} OrderlyIsCalm(run: seq<State>, i: nat)
    requires Run(run) && Orderly(run) && i < |run|
    ensures run[i].calm
  {
    if i > 0 {
      OrderlyIsCalm(run, i - 1);
      OrderlyIsQuiet(run, i - 1);
      CalmMeansQuiet(run, i - 1);
    }
  }
}
