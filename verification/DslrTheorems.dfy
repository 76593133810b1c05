/** The promises of the ticket lock, over whole runs. */
module DslrTheorems {
  import opened DslrWord
  import opened Dslr
  import opened DslrSafety

  predicate Holds(s: State, c: nat, mode: Mode) {
    At(s, c, Holding) && s.clients[c].mode == mode
  }

  // ---------------------------------------------------------------------------------------------
  // Exclusion
  // ---------------------------------------------------------------------------------------------

  /** Whoever holds the lock exclusively is the only holder, in either mode, whatever requests, waits,
      abandoned tickets, lapsed leases and resets came before. */
  lemma ExclusiveIsAlone(run: seq<State>, i: nat, c: nat, d: nat)
    requires Run(run) && i < |run| && Holds(run[i], c, Exclusive) && At(run[i], d, Holding)
    ensures d == c
  {
    RunInv(run, i);
    assert ClientOk(run[i], c) && ClientOk(run[i], d) && Different(run[i], c, d);
  }

  /** An exclusive holder got in only after every shared ticket handed out before its own was released
      and every exclusive one too. */
  lemma ExclusiveWaitsForAll(run: seq<State>, i: nat, c: nat)
    requires Run(run) && i < |run| && Holds(run[i], c, Exclusive)
    ensures var h, t := run[i].h, run[i].clients[c];
            h.nx == t.prev.maxx && forall j: nat | j < t.prev.maxs :: j in h.done
  {
    RunInv(run, i);
    assert ClientOk(run[i], c);
  }

  /** A shared holder got in only after every exclusive ticket handed out before its own was released,
      and no later one has been served since. */
  lemma SharedWaitsForExclusive(run: seq<State>, i: nat, c: nat)
    requires Run(run) && i < |run| && Holds(run[i], c, Shared)
    ensures run[i].h.nx == run[i].clients[c].prev.maxx
  {
    RunInv(run, i);
    var h, t := run[i].h, run[i].clients[c];
    assert ClientOk(run[i], c);
    assert t.prev.maxx < h.nx ==> SharedDone(h, t.prev.maxx);
  }

  // ---------------------------------------------------------------------------------------------
  // The word
  // ---------------------------------------------------------------------------------------------

  /** One counter goes up or down delta one and the others stay. */
  predicate OneSegment(a: Counters, b: Counters, segment: Segment, delta: int) {
    && b.nx == a.nx + (if segment.NX? then delta else 0)
    && b.ns == a.ns + (if segment.NS? then delta else 0)
    && b.maxx == a.maxx + (if segment.MAXX? then delta else 0)
    && b.maxs == a.maxs + (if segment.MAXS? then delta else 0)
  }

  function ModeOf(s: State, c: nat): Mode
    requires c in s.clients && !s.clients[c].Idle?
  {
    s.clients[c].mode
  }

  /** No fetch-and-add of any run carries into or borrows from a neighbouring counter: requests ... */
  lemma AskStaysInSegment(run: seq<State>, i: nat, c: nat, mode: Mode)
    requires Run(run) && i + 1 < |run| && Ask(run[i], run[i + 1], c, mode)
    ensures OneSegment(Decode(run[i].word), Decode(run[i + 1].word), MaxSegment(mode), 1)
  {
    var s, s' := run[i], run[i + 1];
    RunInv(run, i);
    RunInv(run, i + 1);
    Fits(s);
    Fits(s');
    forall m ensures Pending(s'.clients, m) == Pending(s.clients, m) + (if s'.clients[c] == BackingOut(m) then 1 else 0) {
      PendingUpdate(s.clients, c, s'.clients[c], m);
    }
  }

  /** ... requests taken back, by adding 2^64 - 1 or 2^64 - 2^16 ... */
  lemma BackOutStaysInSegment(run: seq<State>, i: nat, c: nat)
    requires Run(run) && i + 1 < |run| && BackOut(run[i], run[i + 1], c)
    ensures OneSegment(Decode(run[i].word), Decode(run[i + 1].word), MaxSegment(ModeOf(run[i], c)), -1)
  {
    var s, s' := run[i], run[i + 1];
    RunInv(run, i);
    RunInv(run, i + 1);
    Fits(s);
    Fits(s');
    forall m ensures Pending(s'.clients, m) == Pending(s.clients, m) - (if s.clients[c] == BackingOut(m) then 1 else 0) {
      PendingUpdate(s.clients, c, Idle, m);
    }
  }

  /** ... and releases. */
  lemma ReleaseStaysInSegment(run: seq<State>, i: nat, c: nat)
    requires Run(run) && i + 1 < |run| && Release(run[i], run[i + 1], c)
    ensures OneSegment(Decode(run[i].word), Decode(run[i + 1].word), NextSegment(ModeOf(run[i], c)), 1)
  {
    var s, s' := run[i], run[i + 1];
    RunInv(run, i);
    RunInv(run, i + 1);
    Fits(s);
    Fits(s');
    assert ClientOk(s, c);
    PendingBoth(s.clients, c, s'.clients[c]);
  }

  /** The word counts the tickets: handed out or still to be taken back on one side, released on the
      other. */
  lemma WordCountsTickets(run: seq<State>, i: nat)
    requires Run(run) && i < |run|
    ensures var s, w := run[i], Decode(run[i].word);
            && w.nx == s.h.nx && w.ns == |s.h.done|
            && w.maxx == |s.h.excl| + Pending(s.clients, Exclusive) && w.maxs == |s.h.shared| + Pending(s.clients, Shared)
  {
    RunInv(run, i);
    Fits(run[i]);
  }

  // ---------------------------------------------------------------------------------------------
  // Resetting
  // ---------------------------------------------------------------------------------------------

  predicate OwnsReset(s: State, c: nat) {
    c in s.clients && s.clients[c].Active? && s.clients[c].resetFrom != 0
  }

  /** At most one client is to reset the word. */
  lemma OneResetter(run: seq<State>, i: nat, c: nat, d: nat)
    requires Run(run) && i < |run| && OwnsReset(run[i], c) && OwnsReset(run[i], d)
    ensures c == d
  {
    RunInv(run, i);
    assert ClientOk(run[i], c) && ClientOk(run[i], d) && Different(run[i], c, d);
  }

  /** The reset can be done exactly when nothing is outstanding: every ticket released, no request
      waiting to be taken back. All other clients are then idle, so none will act on the old word. */
  lemma ResetExactlyWhenQuiet(run: seq<State>, i: nat, c: nat)
    requires Run(run) && i < |run| && At(run[i], c, Resetting)
    ensures run[i].word == run[i].clients[c].resetFrom <==>
              && run[i].h.nx == |run[i].h.excl| && |run[i].h.done| == |run[i].h.shared|
              && Pending(run[i].clients, Shared) == 0 == Pending(run[i].clients, Exclusive)
    ensures run[i].word == run[i].clients[c].resetFrom ==> forall d | d in run[i].clients && d != c :: run[i].clients[d].Idle?
  {
    var s := run[i];
    RunInv(run, i);
    assert ClientOk(s, c);
    if s.word == s.clients[c].resetFrom {
      ResetMeansQuiet(s, c);
      var t := s.clients[c];
      DecodeEncode(t.prev.maxx, COUNT_MAX, t.prev.maxx, COUNT_MAX);
      DecodeEncode(COUNT_MAX, t.prev.maxs, COUNT_MAX, t.prev.maxs);
      Fits(s);
      DoneBound(s.h);
      var all := UpTo(|s.h.shared|);
      Subset(all, s.h.done);
    }
  }

  // ---------------------------------------------------------------------------------------------
  // Getting in
  // ---------------------------------------------------------------------------------------------

  /** A request gets a ticket exactly if neither kind of ticket has run out. */
  lemma TicketExactlyWhenOpen(run: seq<State>, i: nat, c: nat, mode: Mode)
    requires Run(run) && i + 1 < |run| && Ask(run[i], run[i + 1], c, mode)
    ensures run[i + 1].clients[c].Active? <==> |run[i].h.shared| < 32768 && |run[i].h.excl| < 32768
    ensures run[i + 1].clients[c].Active? <==> !run[i + 1].clients[c].BackingOut?
  {
    var s := run[i];
    RunInv(run, i);
    Fits(s);
    if !Closed(s.h) { OpenMeansNoPending(s); }
  }

  /** All shared tickets handed out before the n-th are released, if as many are as there were. */
  lemma AllEarlierDone(h: History, n: nat)
    requires |h.done| == n && forall j | j in h.done :: j < n
    ensures forall j: nat | j < n :: j in h.done
  {
    var all := UpTo(n);
    Subset(h.done, all);
  }

  lemma EarlierCount(h: History, n: nat)
    requires forall j: nat | j < n :: j in h.done
    ensures n <= |h.done|
  {
    var all := UpTo(n);
    Subset(all, h.done);
  }

  /** A waiting client's turn has come exactly if every exclusive ticket handed out before its own is
      released and, if its own is exclusive, every shared one as well; it then gets in at its next
      look at the word, unless it is a reader that is turned away. */
  lemma ServedExactlyWhen(run: seq<State>, i: nat, c: nat)
    requires Run(run) && i < |run| && At(run[i], c, Waiting)
    ensures var h, t := run[i].h, run[i].clients[c];
            var turn := h.nx == t.prev.maxx && (t.mode.Exclusive? ==> forall j: nat | j < t.prev.maxs :: j in h.done);
            && (Served(t.mode, t.prev, Decode(run[i].word)) <==> turn)
            && (exists s' :: Poll(run[i], s', c))
            && forall s' | Poll(run[i], s', c) ::
                 (At(s', c, Holding) <==> turn && (t.mode.Shared? ==> |h.done| <= t.prev.maxs))
  {
    var s := run[i];
    RunInv(run, i);
    Fits(s);
    assert ClientOk(s, c);
    var h, t := s.h, s.clients[c];
    OnlySharedIsTurnedAway(run, i, c);
    var now := Decode(s.word);
    assert Poll(s, s.(clients := s.clients[c := if TurnedAway(t.prev, now) then Idle
                                                else if Served(t.mode, t.prev, now) then t.(stage := Holding)
                                                else t]), c);
    if t.mode.Exclusive? && h.nx == t.prev.maxx {
      if |h.done| == t.prev.maxs { AllEarlierDone(h, t.prev.maxs); }
      if forall j: nat | j < t.prev.maxs :: j in h.done { EarlierCount(h, t.prev.maxs); }
    }
  }

  /** A client gets in at once exactly if everything it would have to wait for is released already. */
  lemma ServedAtOnceExactlyWhen(run: seq<State>, i: nat, c: nat, mode: Mode)
    requires Run(run) && i + 1 < |run| && Ask(run[i], run[i + 1], c, mode) && run[i + 1].clients[c].Active?
    ensures var h := run[i].h;
            At(run[i + 1], c, Holding) <==> h.nx == |h.excl| && (mode.Exclusive? ==> forall j: nat | j < |h.shared| :: j in h.done)
  {
    var s := run[i];
    RunInv(run, i);
    Fits(s);
    TicketExactlyWhenOpen(run, i, c, mode);
    OpenMeansNoPending(s);
    if forall j: nat | j < |s.h.shared| :: j in s.h.done { EarlierCount(s.h, |s.h.shared|); }
    DoneBound(s.h);
    if |s.h.done| == |s.h.shared| { AllEarlierDone(s.h, |s.h.shared|); }
  }

  /** Whatever a client is in the middle of, it can go on. */
  lemma NeverStuck(run: seq<State>, i: nat, c: nat, mode: Mode)
    requires Run(run) && i < |run| && c in run[i].clients
    ensures run[i].clients[c].Idle? ==> exists s' :: Ask(run[i], s', c, mode)
    ensures run[i].clients[c].BackingOut? ==> exists s' :: BackOut(run[i], s', c)
    ensures At(run[i], c, Holding) ==> exists s' :: Release(run[i], s', c)
    ensures At(run[i], c, Resetting) ==> exists s' :: Reset(run[i], s', c)
  {
    var s := run[i];
    var t := s.clients[c];
    match t
    case Idle =>
      assert Ask(s, State(FetchAdd(s.word, MaxSegment(mode), 1), s.clients[c := Asked(mode, Decode(s.word))],
                          if Full(Decode(s.word)) then s.h else Issued(s.h, mode)), c, mode);
    case BackingOut(m) =>
      assert BackOut(s, State(FetchAdd(s.word, MaxSegment(m), if m.Shared? then MINUS_ONE_64 else MINUS_ONE_48), s.clients[c := Idle], s.h), c);
    case Active(m, prev, resetFrom, stage) =>
      if stage.Holding? {
        assert Release(s, State(FetchAdd(s.word, NextSegment(m), 1), s.clients[c := if resetFrom > 0 then t.(stage := Resetting) else Idle],
                                if m.Shared? then s.h.(done := s.h.done + {Ticket(t)}) else s.h.(nx := s.h.nx + 1)), c);
      } else if stage.Resetting? {
        assert Reset(s, if s.word == resetFrom then State(0, s.clients[c := Idle], History([], [], {}, 0)) else s, c);
      }
  }

  /** A reset that finds everything released starts the word and its tickets anew; any other changes nothing. */
  lemma ResetStartsAnew(run: seq<State>, i: nat, c: nat)
    requires Run(run) && i + 1 < |run| && Reset(run[i], run[i + 1], c)
    ensures var s, s' := run[i], run[i + 1];
            var quiet := s.h.nx == |s.h.excl| && |s.h.done| == |s.h.shared| && forall d | d in s.clients :: !s.clients[d].BackingOut?;
            if quiet then s'.word == 0 && s'.h == History([], [], {}, 0) && forall d | d in s'.clients :: s'.clients[d].Idle?
            else s' == s
  {
    var s := run[i];
    ResetExactlyWhenQuiet(run, i, c);
    if forall d | d in s.clients :: !s.clients[d].BackingOut? {
      assert BackingOutSet(s.clients, Shared) == {} && BackingOutSet(s.clients, Exclusive) == {};
    } else {
      var d :| d in s.clients && s.clients[d].BackingOut?;
      assert d in BackingOutSet(s.clients, s.clients[d].mode);
    }
  }

  /** The holder of the last ticket of its kind, and nobody else, is to reset the word. */
  lemma LastTicketResets(run: seq<State>, i: nat, c: nat)
    requires Run(run) && i < |run| && c in run[i].clients && run[i].clients[c].Active?
    ensures OwnsReset(run[i], c) <==> Ticket(run[i].clients[c]) == 32767
  {
    RunInv(run, i);
    assert ClientOk(run[i], c);
    var t := run[i].clients[c];
    DecodeEncode(t.prev.maxx, COUNT_MAX, t.prev.maxx, COUNT_MAX);
    DecodeEncode(COUNT_MAX, t.prev.maxs, COUNT_MAX, t.prev.maxs);
  }

  // ---------------------------------------------------------------------------------------------
  // Being turned away
  // ---------------------------------------------------------------------------------------------

  /** A client waiting for an exclusive ticket is never turned away. A client waiting for a shared one
      is turned away exactly if as many shared tickets as came before its own have been released, one
      of them later than its own; and its turn has not passed. */
  lemma OnlySharedIsTurnedAway(run: seq<State>, i: nat, c: nat)
    requires Run(run) && i < |run| && At(run[i], c, Waiting)
    ensures var t, now := run[i].clients[c], Decode(run[i].word);
            && now.nx <= t.prev.maxx
            && (t.mode.Exclusive? ==> !TurnedAway(t.prev, now))
            && (t.mode.Shared? ==> (TurnedAway(t.prev, now) <==> t.prev.maxs < |run[i].h.done|))
  {
    var s := run[i];
    RunInv(run, i);
    Fits(s);
    assert ClientOk(s, c);
    var t := s.clients[c];
    if t.mode.Exclusive? {
      EarlierShared(s.h, t.prev.maxx);
    } else {
      assert t.prev.maxx < s.h.nx ==> SharedDone(s.h, t.prev.maxx);
    }
  }

  /** Shared ticket j has been handed out, is not released, and no client has it any more. */
  ghost predicate Lost(s: State, j: nat) {
    && j < |s.h.shared| && j !in s.h.done
    && forall c | c in s.clients && s.clients[c].Active? && s.clients[c].mode.Shared? :: s.clients[c].prev.maxs != j
  }

  /** A lost ticket stays lost ... */
  lemma LostStaysLost(s: State, s': State, j: nat)
    requires Inv(s) && Next(s, s') && Lost(s, j)
    ensures Lost(s', j) && |s.h.shared| <= |s'.h.shared| && s'.h.shared[j] == s.h.shared[j]
  {
    var step :| NextBy(s, s', step);
    Fits(s);
    OpenMeansNoPending(s);
    match step
    case AskStep(c, mode) => { }
    case BackOutStep(c) => { }
    case PollStep(c) => { }
    case ReleaseStep(c) => { }
    case LapseStep(c) => { }
    case ResetStep(c) => if s.word == s.clients[c].resetFrom { ResetMeansQuiet(s, c); }
  }

  lemma {:induction false} LostForEver(run: seq<State>, i: nat, k: nat, j: nat)
    requires Run(run) && i <= k < |run| && Lost(run[i], j)
    ensures Lost(run[k], j) && run[k].h.shared[j] == run[i].h.shared[j]
  {
    if i < k {
      LostForEver(run, i, k - 1, j);
      RunInv(run, k - 1);
      assert StepAt(run, k - 1);
      LostStaysLost(run[k - 1], run[k], j);
    }
  }

  /** ... and from then on nobody with a later exclusive ticket ever gets the lock, and the word is
      never reset. */
  lemma LostTicketBlocks(run: seq<State>, i: nat, k: nat, j: nat, c: nat)
    requires Run(run) && i <= k < |run| && Lost(run[i], j)
    ensures Holds(run[k], c, Exclusive) ==> run[k].clients[c].prev.maxx < run[i].h.shared[j]
    ensures At(run[k], c, Resetting) ==> run[k].word != run[k].clients[c].resetFrom
  {
    LostForEver(run, i, k, j);
    RunInv(run, k);
    var s := run[k];
    if Holds(s, c, Exclusive) { assert ClientOk(s, c); }
    if At(s, c, Resetting) && s.word == s.clients[c].resetFrom { ResetMeansQuiet(s, c); }
  }
}
