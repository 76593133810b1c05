/** A waiting reader can be turned away and take its ticket with it.

    Two readers wait behind a writer. The writer leaves; the second reader is quicker, gets in and out
    again; the first then finds more shared tickets released than came before its own, and gives up. */
module DslrLostTicket {
  import opened DslrWord
  import opened Dslr
  import opened DslrSafety
  import opened DslrTheorems

  ghost predicate Reach(s: State) {
    exists run :: Run(run) && run[|run| - 1] == s
  }

  lemma ReachInit(s: State)
    requires Init(s)
    ensures Reach(s)
  {
    assert Run([s]);
  }

  lemma Do(s: State, s': State, step: Step)
    requires Reach(s) && NextBy(s, s', step)
    ensures Reach(s')
  {
    var run :| Run(run) && run[|run| - 1] == s;
    var longer := run + [s'];
    forall i | 0 <= i < |longer| - 1 ensures StepAt(longer, i) {
      assert i < |run| - 1 ==> StepAt(run, i);
    }
    assert Run(longer);
  }

  /** The word shows the given counters, all of them small. */
  predicate Shows(s: State, a: Counters) {
    s.word < WORD && Decode(s.word) == a && a.nx < 9 && a.ns < 9 && a.maxx < 9 && a.maxs < 9
  }

  lemma Adds(s: State, a: Counters)
    requires Shows(s, a)
    ensures var w := s.word;
            && Decode(FetchAdd(w, MAXS, 1)) == a.(maxs := a.maxs + 1) && Decode(FetchAdd(w, MAXX, 1)) == a.(maxx := a.maxx + 1)
            && Decode(FetchAdd(w, NS, 1)) == a.(ns := a.ns + 1) && Decode(FetchAdd(w, NX, 1)) == a.(nx := a.nx + 1)
  {
    EncodeDecode(s.word);
    AddOne(a.nx, a.ns, a.maxx, a.maxs);
    DecodeEncode(a.nx, a.ns, a.maxx, a.maxs + 1);
    DecodeEncode(a.nx, a.ns, a.maxx + 1, a.maxs);
    DecodeEncode(a.nx, a.ns + 1, a.maxx, a.maxs);
    DecodeEncode(a.nx + 1, a.ns, a.maxx, a.maxs);
  }

  function Holder(mode: Mode, prev: Counters): Client { Active(mode, prev, 0, Holding) }
  function Waiter(mode: Mode, prev: Counters): Client { Active(mode, prev, 0, Waiting) }

  lemma Asks(s: State, c: nat, mode: Mode, a: Counters, b: Counters) returns (s': State)
    requires Reach(s) && c in s.clients && s.clients[c] == Idle && Shows(s, a) && a.maxs < 8 && a.maxx < 8
    requires b == if mode.Shared? then a.(maxs := a.maxs + 1) else a.(maxx := a.maxx + 1)
    ensures Reach(s') && Shows(s', b) && s'.h == Issued(s.h, mode)
    ensures s'.clients == s.clients[c := if Served(mode, a, a) then Holder(mode, a) else Waiter(mode, a)]
  {
    Adds(s, a);
    s' := State(FetchAdd(s.word, MaxSegment(mode), 1), s.clients[c := Asked(mode, a)], Issued(s.h, mode));
    Do(s, s', AskStep(c, mode));
  }

  lemma Polls(s: State, c: nat, mode: Mode, prev: Counters, a: Counters) returns (s': State)
    requires Reach(s) && c in s.clients && s.clients[c] == Waiter(mode, prev) && Shows(s, a)
    requires TurnedAway(prev, a) || Served(mode, prev, a)
    ensures Reach(s') && s' == s.(clients := s.clients[c := if TurnedAway(prev, a) then Idle else Holder(mode, prev)])
  {
    s' := s.(clients := s.clients[c := if TurnedAway(prev, a) then Idle else Holder(mode, prev)]);
    Do(s, s', PollStep(c));
  }

  lemma Releases(s: State, c: nat, mode: Mode, prev: Counters, a: Counters, b: Counters) returns (s': State)
    requires Reach(s) && c in s.clients && s.clients[c] == Holder(mode, prev) && Shows(s, a) && a.ns < 8 && a.nx < 8
    requires b == if mode.Shared? then a.(ns := a.ns + 1) else a.(nx := a.nx + 1)
    ensures Reach(s') && Shows(s', b) && s'.clients == s.clients[c := Idle]
    ensures s'.h == if mode.Shared? then s.h.(done := s.h.done + {prev.maxs}) else s.h.(nx := s.h.nx + 1)
  {
    Adds(s, a);
    s' := State(FetchAdd(s.word, NextSegment(mode), 1), s.clients[c := Idle],
                if mode.Shared? then s.h.(done := s.h.done + {prev.maxs}) else s.h.(nx := s.h.nx + 1));
    Do(s, s', ReleaseStep(c));
  }

  function Three(writer: Client, first: Client, second: Client): map<nat, Client> {
    map[1 := writer, 2 := first, 3 := second]
  }

  lemma WriterEnters() returns (s: State)
    ensures Reach(s) && Shows(s, Counters(0, 0, 1, 0)) && s.h == History([], [0], {}, 0)
    ensures s.clients == Three(Holder(Exclusive, Counters(0, 0, 0, 0)), Idle, Idle)
  {
    var s0 := State(0, Three(Idle, Idle, Idle), History([], [], {}, 0));
    assert s0.clients.Keys == {1, 2, 3};
    assert |s0.clients| == |s0.clients.Keys| == 3;
    ReachInit(s0);
    s := Asks(s0, 1, Exclusive, Counters(0, 0, 0, 0), Counters(0, 0, 1, 0));
    assert [] + [0] == [0];
  }

  /** The writer holds the lock and both readers wait. */
  lemma ReadersWait() returns (s: State)
    ensures Reach(s) && Shows(s, Counters(0, 0, 1, 2)) && s.h == History([1, 1], [0], {}, 0)
    ensures s.clients == Three(Holder(Exclusive, Counters(0, 0, 0, 0)), Waiter(Shared, Counters(0, 0, 1, 0)), Waiter(Shared, Counters(0, 0, 1, 1)))
  {
    var s1 := WriterEnters();
    var s2 := Asks(s1, 2, Shared, Counters(0, 0, 1, 0), Counters(0, 0, 1, 1));
    s := Asks(s2, 3, Shared, Counters(0, 0, 1, 1), Counters(0, 0, 1, 2));
    assert [] + [1] + [1] == [1, 1];
  }

  /** The first reader is turned away while the lock is free, and its ticket is lost for good. */
  lemma TicketIsLost() returns (s: State)
    ensures Reach(s) && Lost(s, 0) && forall c | c in s.clients :: s.clients[c] == Idle
  {
    var s0 := ReadersWait();
    var s1 := Releases(s0, 1, Exclusive, Counters(0, 0, 0, 0), Counters(0, 0, 1, 2), Counters(1, 0, 1, 2));
    var s2 := Polls(s1, 3, Shared, Counters(0, 0, 1, 1), Counters(1, 0, 1, 2));
    var s3 := Releases(s2, 3, Shared, Counters(0, 0, 1, 1), Counters(1, 0, 1, 2), Counters(1, 1, 1, 2));
    s := Polls(s3, 2, Shared, Counters(0, 0, 1, 0), Counters(1, 1, 1, 2));
  }
}
