/** What every step of the ticket lock keeps, and what follows for whole runs. */
module DslrSafety {
  import opened DslrWord
  import opened Dslr

  // ---------------------------------------------------------------------------------------------
  // The invariant
  // ---------------------------------------------------------------------------------------------

  ghost function BackingOutSet(clients: map<nat, Client>, mode: Mode): set<nat> {
    set c | c in clients && clients[c] == BackingOut(mode)
  }

  /** Requests for a ticket that will be taken back. */
  ghost function Pending(clients: map<nat, Client>, mode: Mode): nat {
    |BackingOutSet(clients, mode)|
  }

  ghost function View(s: State): Counters {
    Counters(s.h.nx, |s.h.done|, |s.h.excl| + Pending(s.clients, Exclusive), |s.h.shared| + Pending(s.clients, Shared))
  }

  ghost predicate WordOk(s: State) {
    s.word == Enc(View(s).nx, View(s).ns, View(s).maxx, View(s).maxs)
  }

  predicate Closed(h: History) {
    |h.shared| == COUNT_MAX || |h.excl| == COUNT_MAX
  }

  /** The two lists of tickets tell the same story about which ticket came before which. */
  ghost predicate Consistent(h: History) {
    && (forall j | 0 <= j < |h.shared| :: h.shared[j] <= |h.excl|)
    && (forall i | 0 <= i < |h.excl| :: h.excl[i] <= |h.shared|)
    && (forall j, i | 0 <= j < |h.shared| && 0 <= i < |h.excl| :: h.shared[j] <= i <==> j < h.excl[i])
  }

  /** Every shared ticket handed out before the i-th exclusive one has been released. */
  ghost predicate SharedDone(h: History, i: nat)
    requires i < |h.excl|
  {
    forall j | 0 <= j < h.excl[i] :: j in h.done
  }

  ghost predicate HistOk(h: History) {
    && |h.shared| <= COUNT_MAX && |h.excl| <= COUNT_MAX && (|h.shared| < COUNT_MAX || |h.excl| < COUNT_MAX)
    && Consistent(h)
    && h.nx <= |h.excl| && (forall j | j in h.done :: j < |h.shared| && h.shared[j] <= h.nx)
    && forall i | 0 <= i < h.nx :: SharedDone(h, i)
  }

  ghost predicate ClientOk(s: State, c: nat)
    requires c in s.clients
  {
    var t := s.clients[c];
    var h := s.h;
    && (t.BackingOut? ==> Closed(h))
    && (t.Active? ==>
          && t.resetFrom == ResetFrom(t.mode, t.prev) && (t.stage.Resetting? ==> t.resetFrom != 0)
          && if t.mode.Shared? then
               && t.prev.maxs < |h.shared| && h.shared[t.prev.maxs] == t.prev.maxx
               && (t.prev.maxs in h.done <==> t.stage.Resetting?)
               && (t.stage.Holding? ==> t.prev.maxx <= h.nx)
               && (t.prev.maxs == COUNT_MAX - 1 ==> t.prev.maxx == |h.excl|)
             else
               && t.prev.maxx < |h.excl| && h.excl[t.prev.maxx] == t.prev.maxs
               && (t.prev.maxx < h.nx <==> t.stage.Resetting?)
               && (t.stage.Holding? ==> t.prev.maxx == h.nx && SharedDone(h, h.nx))
               && (t.prev.maxx == COUNT_MAX - 1 ==> t.prev.maxs == |h.shared|))
  }

  predicate Different(s: State, c: nat, d: nat) {
    (c != d && c in s.clients && d in s.clients && s.clients[c].Active? && s.clients[d].Active? && s.clients[c].mode == s.clients[d].mode) ==>
      Ticket(s.clients[c]) != Ticket(s.clients[d])
  }

  ghost predicate Inv(s: State) {
    && |s.clients| < BASE - COUNT_MAX
    && WordOk(s) && HistOk(s.h)
    && (forall c {:trigger ClientOk(s, c)} | c in s.clients :: ClientOk(s, c))
    && (forall c, d {:trigger Different(s, c, d)} :: Different(s, c, d))
  }

  // ---------------------------------------------------------------------------------------------
  // Counting
  // ---------------------------------------------------------------------------------------------

  lemma PendingBound(clients: map<nat, Client>)
    ensures Pending(clients, Shared) + Pending(clients, Exclusive) <= |clients|
    ensures (exists c :: c in clients && clients[c].Idle?) ==> Pending(clients, Shared) + Pending(clients, Exclusive) < |clients|
  {
    var a, b := BackingOutSet(clients, Shared), BackingOutSet(clients, Exclusive);
    assert |clients| == |clients.Keys|;
    assert a !! b;
    Subset(a + b, clients.Keys);
    if c :| c in clients && clients[c].Idle? {
      Subset(a + b, clients.Keys - {c});
    }
  }

  lemma {:induction false} Subset(a: set<nat>, b: set<nat>)
    requires a <= b
    ensures |a| <= |b| && (|a| == |b| ==> a == b)
  {
    assert b == a + (b - a);
  }

  lemma {:induction false} Without(a: set<nat>, c: nat)
    ensures |a| == |a - {c}| + (if c in a then 1 else 0)
  {
    if c in a { assert a == (a - {c}) + {c}; } else { assert a == a - {c}; }
  }

  lemma PendingUpdate(clients: map<nat, Client>, c: nat, t: Client, mode: Mode)
    requires c in clients
    ensures Pending(clients[c := t], mode) == Pending(clients, mode) - (if clients[c] == BackingOut(mode) then 1 else 0)
                                              + (if t == BackingOut(mode) then 1 else 0)
  {
    var a, b := BackingOutSet(clients, mode), BackingOutSet(clients[c := t], mode);
    assert a - {c} == b - {c};
    Without(a, c);
    Without(b, c);
  }

  lemma PendingBoth(clients: map<nat, Client>, c: nat, t: Client)
    requires c in clients && !clients[c].BackingOut? && !t.BackingOut?
    ensures forall mode :: Pending(clients[c := t], mode) == Pending(clients, mode)
    ensures |clients[c := t]| == |clients|
  {
    forall mode ensures Pending(clients[c := t], mode) == Pending(clients, mode) { PendingUpdate(clients, c, t, mode); }
    SameSize(clients, c, t);
  }

  lemma SameSize(clients: map<nat, Client>, c: nat, t: Client)
    requires c in clients
    ensures |clients[c := t]| == |clients|
  {
    assert clients[c := t].Keys == clients.Keys;
    assert |clients[c := t].Keys| == |clients[c := t]| && |clients.Keys| == |clients|;
  }

  lemma {:induction false} UpTo(n: nat) returns (s: set<nat>)
    ensures (forall j: nat :: j in s <==> j < n) && |s| == n
  {
    s := {};
    if 0 < n {
      var p := UpTo(n - 1);
      s := p + {n - 1};
    }
  }

  lemma DoneBound(h: History)
    requires HistOk(h)
    ensures |h.done| <= |h.shared|
    ensures |h.done| == |h.shared| ==> forall j: nat | j < |h.shared| :: j in h.done
  {
    var all := UpTo(|h.shared|);
    Subset(h.done, all);
  }

  /** The counters fit their segments, and the word is what they say. */
  lemma Fits(s: State)
    requires Inv(s)
    ensures var v := View(s);
            && v.nx <= COUNT_MAX && v.ns <= COUNT_MAX && v.maxx < BASE && v.maxs < BASE && Decode(s.word) == v
            && ((exists c :: c in s.clients && s.clients[c].Idle?) ==> v.maxx + 1 < BASE && v.maxs + 1 < BASE)
            && s.word < WORD
  {
    var v := View(s);
    DoneBound(s.h);
    PendingBound(s.clients);
    DecodeEncode(v.nx, v.ns, v.maxx, v.maxs);
  }

  /** No request is pending before the counters are full. */
  lemma OpenMeansNoPending(s: State)
    requires Inv(s)
    ensures !Closed(s.h) ==> Pending(s.clients, Shared) == 0 && Pending(s.clients, Exclusive) == 0
    ensures Full(View(s)) <==> Closed(s.h)
  {
    if !Closed(s.h) {
      forall mode ensures BackingOutSet(s.clients, mode) == {} {
        forall c | c in s.clients ensures !s.clients[c].BackingOut? { assert ClientOk(s, c); }
      }
      assert BackingOutSet(s.clients, Shared) == {} && BackingOutSet(s.clients, Exclusive) == {};
    }
  }

  // ---------------------------------------------------------------------------------------------
  // Served tickets
  // ---------------------------------------------------------------------------------------------

  /** While the i-th exclusive ticket has not been released, every released shared ticket is an
      earlier one; when all their releases have been counted, the earlier ones are all done. */
  lemma EarlierShared(h: History, i: nat)
    requires HistOk(h) && h.nx <= i < |h.excl|
    ensures |h.done| <= h.excl[i] && (|h.done| == h.excl[i] ==> SharedDone(h, i))
  {
    var before := UpTo(h.excl[i]);
    Subset(h.done, before);
  }

  // ---------------------------------------------------------------------------------------------
  // Steps
  // ---------------------------------------------------------------------------------------------

  /** Only client c changed, and it keeps its ticket or has none. */
  ghost predicate OneClient(s: State, s': State, c: nat) {
    && c in s.clients && c in s'.clients && s'.clients == s.clients[c := s'.clients[c]]
    && (s'.clients[c].Active? ==> s.clients[c].Active? && s'.clients[c].mode == s.clients[c].mode && s'.clients[c].prev == s.clients[c].prev)
  }

  lemma StillDifferent(s: State, s': State, c: nat)
    requires Inv(s) && OneClient(s, s', c)
    ensures forall a, b {:trigger Different(s', a, b)} :: Different(s', a, b)
  {
    forall a, b ensures Different(s', a, b) { assert Different(s, a, b); }
  }

  lemma PollInv(s: State, s': State, c: nat)
    requires Inv(s) && Poll(s, s', c)
    ensures Inv(s')
  {
    Fits(s);
    assert ClientOk(s, c);
    var t := s.clients[c];
    PendingBoth(s.clients, c, s'.clients[c]);
    StillDifferent(s, s', c);
    if t.mode.Exclusive? { EarlierShared(s.h, t.prev.maxx); }
    forall d | d in s'.clients ensures ClientOk(s', d) { assert ClientOk(s, d); }
  }

  lemma LapseInv(s: State, s': State, c: nat)
    requires Inv(s) && Lapse(s, s', c)
    ensures Inv(s')
  {
    PendingBoth(s.clients, c, Idle);
    StillDifferent(s, s', c);
    forall d | d in s'.clients ensures ClientOk(s', d) { assert ClientOk(s, d); }
  }

  lemma BackOutWord(s: State, s': State, c: nat)
    requires Inv(s) && BackOut(s, s', c)
    ensures WordOk(s')
  {
    Fits(s);
    var v := View(s);
    forall mode ensures Pending(s'.clients, mode) == Pending(s.clients, mode) - (if s.clients[c] == BackingOut(mode) then 1 else 0) {
      PendingUpdate(s.clients, c, Idle, mode);
    }
    assert c in BackingOutSet(s.clients, s.clients[c].mode);
    TakeBack(v.nx, v.ns, v.maxx, v.maxs);
  }

  lemma BackOutInv(s: State, s': State, c: nat)
    requires Inv(s) && BackOut(s, s', c)
    ensures Inv(s')
  {
    BackOutWord(s, s', c);
    SameSize(s.clients, c, Idle);
    StillDifferent(s, s', c);
    forall d | d in s'.clients ensures ClientOk(s', d) { assert ClientOk(s, d); }
  }

  /** A request that finds the counters full. */
  lemma AskFullInv(s: State, s': State, c: nat, mode: Mode)
    requires Inv(s) && Ask(s, s', c, mode) && Full(Decode(s.word))
    ensures Inv(s')
  {
    Fits(s);
    OpenMeansNoPending(s);
    var v := View(s);
    forall m ensures Pending(s'.clients, m) == Pending(s.clients, m) + (if m == mode then 1 else 0) {
      PendingUpdate(s.clients, c, BackingOut(mode), m);
    }
    SameSize(s.clients, c, BackingOut(mode));
    AddOne(v.nx, v.ns, v.maxx, v.maxs);
    StillDifferent(s, s', c);
    forall d | d in s'.clients ensures ClientOk(s', d) { assert ClientOk(s, d); }
  }

  lemma IssuedOk(h: History, mode: Mode)
    requires HistOk(h) && |h.shared| < COUNT_MAX && |h.excl| < COUNT_MAX
    ensures HistOk(Issued(h, mode))
    ensures forall i | 0 <= i < |h.excl| :: SharedDone(Issued(h, mode), i) <==> SharedDone(h, i)
  {
    var h' := Issued(h, mode);
    forall i | 0 <= i < |h.excl| ensures SharedDone(h', i) <==> SharedDone(h, i) { assert h'.excl[i] == h.excl[i]; }
  }

  /** The tickets of the other clients are not affected by a new one. */
  lemma IssuedOther(s: State, s': State, mode: Mode, d: nat)
    requires d in s.clients && d in s'.clients && s'.clients[d] == s.clients[d] && ClientOk(s, d) && HistOk(s.h)
    requires s'.h == Issued(s.h, mode) && |s.h.shared| < COUNT_MAX && |s.h.excl| < COUNT_MAX
    ensures ClientOk(s', d)
  {
    IssuedOk(s.h, mode);
  }

  lemma AskOwn(s: State, s': State, c: nat, mode: Mode)
    requires Inv(s) && Ask(s, s', c, mode) && !Full(Decode(s.word))
    ensures ClientOk(s', c)
  {
    Fits(s);
    OpenMeansNoPending(s);
    IssuedOk(s.h, mode);
    if mode.Exclusive? && s.h.nx == |s.h.excl| && |s.h.done| == |s.h.shared| {
      DoneBound(s.h);
    }
  }

  lemma AskWord(s: State, s': State, c: nat, mode: Mode)
    requires Inv(s) && Ask(s, s', c, mode) && !Full(Decode(s.word))
    ensures WordOk(s') && |s'.clients| == |s.clients|
  {
    Fits(s);
    var v := View(s);
    PendingBoth(s.clients, c, s'.clients[c]);
    AddOne(v.nx, v.ns, v.maxx, v.maxs);
  }

  lemma AskInv(s: State, s': State, c: nat, mode: Mode)
    requires Inv(s) && Ask(s, s', c, mode) && !Full(Decode(s.word))
    ensures Inv(s')
  {
    AskWord(s, s', c, mode);
    Fits(s);
    OpenMeansNoPending(s);
    IssuedOk(s.h, mode);
    AskOwn(s, s', c, mode);
    forall d | d in s'.clients ensures ClientOk(s', d) {
      if d != c {
        assert ClientOk(s, d);
        IssuedOther(s, s', mode, d);
      }
    }
    forall a, b ensures Different(s', a, b) {
      assert Different(s, a, b);
      if a in s.clients { assert ClientOk(s, a); }
      if b in s.clients { assert ClientOk(s, b); }
    }
  }

  lemma ReleaseWord(s: State, s': State, c: nat)
    requires Inv(s) && Release(s, s', c)
    ensures WordOk(s') && |s'.clients| == |s.clients|
  {
    Fits(s);
    assert ClientOk(s, c);
    var v := View(s);
    PendingBoth(s.clients, c, s'.clients[c]);
    AddOne(v.nx, v.ns, v.maxx, v.maxs);
  }

  lemma ReleaseSharedInv(s: State, s': State, c: nat)
    requires Inv(s) && Release(s, s', c) && s.clients[c].mode.Shared?
    ensures Inv(s')
  {
    ReleaseWord(s, s', c);
    assert ClientOk(s, c);
    StillDifferent(s, s', c);
    forall d | d in s'.clients ensures ClientOk(s', d) { assert ClientOk(s, d) && Different(s, c, d); }
    forall i | 0 <= i < s.h.nx ensures SharedDone(s'.h, i) { assert SharedDone(s.h, i); }
  }

  lemma ReleaseExclusiveInv(s: State, s': State, c: nat)
    requires Inv(s) && Release(s, s', c) && s.clients[c].mode.Exclusive?
    ensures Inv(s')
  {
    ReleaseWord(s, s', c);
    assert ClientOk(s, c);
    StillDifferent(s, s', c);
    forall i | 0 <= i < s'.h.nx ensures SharedDone(s'.h, i) { if i < s.h.nx { assert SharedDone(s.h, i); } else { assert SharedDone(s.h, s.h.nx); } }
    forall d | d in s'.clients ensures ClientOk(s', d) { assert ClientOk(s, d) && Different(s, c, d); }
  }

  /** When the word is what the last ticket's holder waits for, every ticket has been counted as
      released and every request has been taken back. */
  lemma ResetCounts(s: State, c: nat)
    requires Inv(s) && At(s, c, Resetting) && s.word == s.clients[c].resetFrom
    ensures Pending(s.clients, Shared) == 0 == Pending(s.clients, Exclusive)
    ensures s.h.nx == |s.h.excl| && |s.h.done| == |s.h.shared|
  {
    Fits(s);
    DoneBound(s.h);
    assert ClientOk(s, c);
    var t := s.clients[c];
    var r := if t.mode.Shared? then Counters(t.prev.maxx, COUNT_MAX, t.prev.maxx, COUNT_MAX)
             else Counters(COUNT_MAX, t.prev.maxs, COUNT_MAX, t.prev.maxs);
    DecodeEncode(r.nx, r.ns, r.maxx, r.maxs);
    assert View(s) == r;
  }

  /** So nobody else is doing anything. */
  lemma ResetMeansQuiet(s: State, c: nat)
    requires Inv(s) && At(s, c, Resetting) && s.word == s.clients[c].resetFrom
    ensures forall d | d in s.clients && d != c :: s.clients[d].Idle?
    ensures s.h.nx == |s.h.excl| && (forall j: nat | j < |s.h.shared| :: j in s.h.done)
  {
    ResetCounts(s, c);
    DoneBound(s.h);
    assert ClientOk(s, c);
    forall d | d in s.clients && d != c ensures s.clients[d].Idle? {
      assert ClientOk(s, d) && Different(s, c, d);
      assert d !in BackingOutSet(s.clients, Shared) && d !in BackingOutSet(s.clients, Exclusive);
    }
  }

  lemma ResetInv(s: State, s': State, c: nat)
    requires Inv(s) && Reset(s, s', c)
    ensures Inv(s')
  {
    if s.word == s.clients[c].resetFrom {
      ResetMeansQuiet(s, c);
      SameSize(s.clients, c, Idle);
      assert BackingOutSet(s'.clients, Shared) == {} && BackingOutSet(s'.clients, Exclusive) == {};
    }
  }

  lemma InitInv(s: State)
    requires Init(s)
    ensures Inv(s)
  {
    assert BackingOutSet(s.clients, Shared) == {} && BackingOutSet(s.clients, Exclusive) == {};
  }

  lemma NextInv(s: State, s': State)
    requires Inv(s) && Next(s, s')
    ensures Inv(s')
  {
    var step :| NextBy(s, s', step);
    match step
    case AskStep(c, mode) => if Full(Decode(s.word)) { AskFullInv(s, s', c, mode); } else { AskInv(s, s', c, mode); }
    case BackOutStep(c) => BackOutInv(s, s', c);
    case PollStep(c) => PollInv(s, s', c);
    case ReleaseStep(c) => if s.clients[c].mode.Shared? { ReleaseSharedInv(s, s', c); } else { ReleaseExclusiveInv(s, s', c); }
    case LapseStep(c) => LapseInv(s, s', c);
    case ResetStep(c) => ResetInv(s, s', c);
  }

  lemma {:induction false} RunInv(run: seq<State>, i: nat)
    requires Run(run) && i < |run|
    ensures Inv(run[i])
  {
    if i == 0 {
      InitInv(run[0]);
    } else {
      RunInv(run, i - 1);
      assert StepAt(run, i - 1);
      NextInv(run[i - 1], run[i]);
    }
  }
}
