/** The decentralized shared/exclusive ticket lock.

    A client takes a ticket by a fetch-and-add, waits by reading the word until its ticket is served,
    and releases by another fetch-and-add. When a counter has reached its limit no more tickets are
    handed out, requests are taken back, and the client with the last ticket sets the word back to 0
    once everybody has released. */
module Dslr {
  import opened DslrWord

  const COUNT_MAX: nat := 32768

  datatype Mode = Shared | Exclusive

  /** The four counters, decoded. */
  datatype Counters = Counters(nx: nat, ns: nat, maxx: nat, maxs: nat)

  function Decode(w: nat): Counters {
    Counters(Nx(w), Ns(w), Maxx(w), Maxs(w))
  }

  datatype Stage = Waiting | Holding | Resetting

  /** prev is what the fetch-and-add returned; resetFrom is 0, or the word that the holder of the last
      ticket has to set back. */
  datatype Client = Idle | BackingOut(mode: Mode) | Active(mode: Mode, prev: Counters, resetFrom: nat, stage: Stage)

  /** The tickets handed out since the word was last 0, which are not part of the program's memory:
      for each shared ticket the number of exclusive ones before it, and the other way round; the
      shared tickets released; and the number of exclusive tickets released. */
  datatype History = History(shared: seq<nat>, excl: seq<nat>, done: set<nat>, nx: nat)

  datatype State = State(word: nat, clients: map<nat, Client>, h: History)

  /** Any number of clients that a segment can count on top of its limit. */
  ghost predicate Init(s: State) {
    && s.word == 0 && s.h == History([], [], {}, 0)
    && |s.clients| < BASE - COUNT_MAX
    && forall c | c in s.clients :: s.clients[c] == Idle
  }

  predicate Full(prev: Counters) {
    prev.maxs >= COUNT_MAX || prev.maxx >= COUNT_MAX
  }

  /** The ticket taken when the counters were prev is served now. */
  predicate Served(mode: Mode, prev: Counters, now: Counters) {
    prev.maxx == now.nx && (mode.Exclusive? ==> prev.maxs == now.ns)
  }

  /** The waiting loop's test for having been overtaken. */
  predicate TurnedAway(prev: Counters, now: Counters) {
    prev.maxx < now.nx || prev.maxs < now.ns
  }

  function ResetFrom(mode: Mode, prev: Counters): nat {
    if mode.Shared? then (if prev.maxs == COUNT_MAX - 1 then Enc(prev.maxx, COUNT_MAX, prev.maxx, COUNT_MAX) else 0)
    else (if prev.maxx == COUNT_MAX - 1 then Enc(COUNT_MAX, prev.maxs, COUNT_MAX, prev.maxs) else 0)
  }

  function Asked(mode: Mode, prev: Counters): Client {
    if Full(prev) then BackingOut(mode)
    else Active(mode, prev, ResetFrom(mode, prev), if Served(mode, prev, prev) then Holding else Waiting)
  }

  function MaxSegment(mode: Mode): Segment {
    if mode.Shared? then MAXS else MAXX
  }

  function NextSegment(mode: Mode): Segment {
    if mode.Shared? then NS else NX
  }

  function Issued(h: History, mode: Mode): History {
    if mode.Shared? then h.(shared := h.shared + [|h.excl|]) else h.(excl := h.excl + [|h.shared|])
  }

  /** acquireLock: ask for a ticket. */
  ghost predicate Ask(s: State, s': State, c: nat, mode: Mode) {
    && c in s.clients && s.clients[c] == Idle
    && var prev := Decode(s.word);
    && s' == State(FetchAdd(s.word, MaxSegment(mode), 1), s.clients[c := Asked(mode, prev)],
                   if Full(prev) then s.h else Issued(s.h, mode))
  }

  /** No ticket was left: take the request back. */
  ghost predicate BackOut(s: State, s': State, c: nat) {
    && c in s.clients && s.clients[c].BackingOut?
    && var mode := s.clients[c].mode;
    && s' == State(FetchAdd(s.word, MaxSegment(mode), if mode.Shared? then MINUS_ONE_64 else MINUS_ONE_48), s.clients[c := Idle], s.h)
  }

  predicate At(s: State, c: nat, stage: Stage) {
    c in s.clients && s.clients[c].Active? && s.clients[c].stage == stage
  }

  /** handleConflict: one round of the waiting loop. A client that is turned away keeps its ticket to
      itself for ever. */
  ghost predicate Poll(s: State, s': State, c: nat) {
    && At(s, c, Waiting)
    && var t := s.clients[c];
    && var now := Decode(s.word);
    && s' == s.(clients := s.clients[c := if TurnedAway(t.prev, now) then Idle
                                          else if Served(t.mode, t.prev, now) then t.(stage := Holding)
                                          else t])
  }

  function Ticket(t: Client): nat
    requires t.Active?
  {
    if t.mode.Shared? then t.prev.maxs else t.prev.maxx
  }

  /** releaseLock within the lease, or with the last ticket. */
  ghost predicate Release(s: State, s': State, c: nat) {
    && At(s, c, Holding)
    && var t := s.clients[c];
    && s' == State(FetchAdd(s.word, NextSegment(t.mode), 1),
                   s.clients[c := if t.resetFrom > 0 then t.(stage := Resetting) else Idle],
                   if t.mode.Shared? then s.h.(done := s.h.done + {Ticket(t)}) else s.h.(nx := s.h.nx + 1))
  }

  /** releaseLock after the lease has run out: nothing is sent. */
  ghost predicate Lapse(s: State, s': State, c: nat) {
    && At(s, c, Holding) && s.clients[c].resetFrom == 0
    && s' == s.(clients := s.clients[c := Idle])
  }

  /** One compare-and-swap of the resetting loop. */
  ghost predicate Reset(s: State, s': State, c: nat) {
    && At(s, c, Resetting)
    && s' == if s.word == s.clients[c].resetFrom then State(0, s.clients[c := Idle], History([], [], {}, 0)) else s
  }

  datatype Step =
    | AskStep(c: nat, mode: Mode)
    | BackOutStep(c: nat)
    | PollStep(c: nat)
    | ReleaseStep(c: nat)
    | LapseStep(c: nat)
    | ResetStep(c: nat)

  ghost predicate NextBy(s: State, s': State, step: Step) {
    match step
    case AskStep(c, mode) => Ask(s, s', c, mode)
    case BackOutStep(c) => BackOut(s, s', c)
    case PollStep(c) => Poll(s, s', c)
    case ReleaseStep(c) => Release(s, s', c)
    case LapseStep(c) => Lapse(s, s', c)
    case ResetStep(c) => Reset(s, s', c)
  }

  ghost predicate Next(s: State, s': State) {
    exists step :: NextBy(s, s', step)
  }

  ghost predicate StepAt(run: seq<State>, i: nat)
    requires i + 1 < |run|
  {
    Next(run[i], run[i + 1])
  }

  ghost predicate Run(run: seq<State>) {
    run != [] && Init(run[0]) && forall i | 0 <= i < |run| - 1 :: StepAt(run, i)
  }
}
