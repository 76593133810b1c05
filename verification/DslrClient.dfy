/** One client of the ticket lock: the requests it sends, and the loop in which it waits. What other
    clients do to the word in between is given by the values that its polls return. */
module DslrClient {
  import opened DslrWord
  import opened Dslr

  /** The first poll that ends the wait: it finds the ticket served, or overtaken. */
  ghost predicate DecidedAt(mode: Mode, prev: Counters, polls: seq<nat>, i: nat) {
    && i < |polls| && (TurnedAway(prev, Decode(polls[i])) || Served(mode, prev, Decode(polls[i])))
    && forall j | 0 <= j < i :: !TurnedAway(prev, Decode(polls[j])) && !Served(mode, prev, Decode(polls[j]))
  }

  /** The lock word. */
  class Word {
    var word: nat

    method FetchAdd(segment: Segment, val: nat) returns (prev: nat)
      modifies this
      ensures prev == old(word) && word == DslrWord.FetchAdd(old(word), segment, val)
    {
      prev := word;
      word := DslrWord.FetchAdd(word, segment, val);
    }

    method CompareAndSwap(from: nat, to: nat) returns (prev: nat)
      modifies this
      ensures prev == old(word) && word == if old(word) == from then to else old(word)
    {
      prev := word;
      if word == from { word := to; }
    }
  }

  /** A client that has got the lock, has been refused, or is still waiting when its polls run out. */
  datatype Answer = Granted | Refused | StillWaiting

  class Lock {
    const mode: Mode
    const word: Word
    var resetFrom: nat

    constructor (word: Word, mode: Mode)
      ensures this.word == word && this.mode == mode && resetFrom == 0
    {
      this.word, this.mode, resetFrom := word, mode, 0;
    }

    /** acquireLock: take a ticket, or take the request back if there are none left. Without a ticket the
        answer is a refusal. With one, it is given at once if everybody before is served, and else by the
        first poll that shows that, or that more than those before have been served. */
    method Acquire(polls: seq<nat>) returns (answer: Answer)
      requires word.word < WORD
      modifies this, word
      ensures var prev := Decode(old(word.word));
              var after := DslrWord.FetchAdd(old(word.word), MaxSegment(mode), 1);
              if Full(prev) then
                && answer == Refused && resetFrom == old(resetFrom)
                && word.word == DslrWord.FetchAdd(after, MaxSegment(mode), if mode.Shared? then MINUS_ONE_64 else MINUS_ONE_48)
              else
                && word.word == after && resetFrom == (if ResetFrom(mode, prev) == 0 then old(resetFrom) else ResetFrom(mode, prev))
                && (Served(mode, prev, prev) ==> answer == Granted)
                && (!Served(mode, prev, prev) ==> Waited(mode, prev, polls, answer))
      ensures var prev := Decode(old(word.word));
              && (prev.maxs >= 32768 || prev.maxx >= 32768 ==> answer == Refused)
              && (prev.maxs < 32768 && prev.maxx < 32768 ==>
                    var atOnce := prev.nx == prev.maxx && (mode.Shared? || prev.ns == prev.maxs);
                    && (atOnce ==> answer == Granted)
                    && (answer == Granted && !atOnce ==>
                          exists i :: 0 <= i < |polls| && Decode(polls[i]).nx == prev.maxx && Decode(polls[i]).ns <= prev.maxs
                                      && (mode.Exclusive? ==> Decode(polls[i]).ns == prev.maxs))
                    && (answer == Refused ==> exists i :: 0 <= i < |polls| && (prev.maxx < Decode(polls[i]).nx || prev.maxs < Decode(polls[i]).ns))
                    && (answer == StillWaiting ==>
                          forall i | 0 <= i < |polls| ::
                            && Decode(polls[i]).nx <= prev.maxx && Decode(polls[i]).ns <= prev.maxs
                            && (Decode(polls[i]).nx == prev.maxx ==> mode.Exclusive? && Decode(polls[i]).ns != prev.maxs))
                    && resetFrom == (if mode.Shared? && prev.maxs == 32767 then Enc(prev.maxx, 32768, prev.maxx, 32768)
                                     else if mode.Exclusive? && prev.maxx == 32767 then Enc(32768, prev.maxs, 32768, prev.maxs)
                                     else old(resetFrom)))
    {
      var p := word.FetchAdd(MaxSegment(mode), 1);
      var prev := Decode(p);
      if prev.maxs >= COUNT_MAX || prev.maxx >= COUNT_MAX {
        var _ := word.FetchAdd(MaxSegment(mode), if mode.Shared? then MINUS_ONE_64 else MINUS_ONE_48);
        return Refused;
      }
      if mode.Shared? && prev.maxs == COUNT_MAX - 1 {
        resetFrom := Enc(prev.maxx, COUNT_MAX, prev.maxx, COUNT_MAX);
      } else if mode.Exclusive? && prev.maxx == COUNT_MAX - 1 {
        resetFrom := Enc(COUNT_MAX, prev.maxs, COUNT_MAX, prev.maxs);
      }
      if prev.nx == prev.maxx && (mode.Shared? || prev.ns == prev.maxs) { return Granted; }
      answer := HandleConflict(prev, polls);
    }

    /** handleConflict */
    method HandleConflict(prev: Counters, polls: seq<nat>) returns (answer: Answer)
      ensures Waited(mode, prev, polls, answer)
    {
      for i := 0 to |polls|
        invariant forall j | 0 <= j < i :: !TurnedAway(prev, Decode(polls[j])) && !Served(mode, prev, Decode(polls[j]))
      {
        var now := Decode(polls[i]);
        if prev.maxx < now.nx || prev.maxs < now.ns {
          assert DecidedAt(mode, prev, polls, i);
          return Refused;
        }
        if prev.maxx == now.nx && (mode.Shared? || prev.maxs == now.ns) {
          assert DecidedAt(mode, prev, polls, i);
          return Granted;
        }
      }
      return StillWaiting;
    }

    /** releaseLock: hand the turn on, unless the lease has run out and nobody waits for a reset. done
        says that the word has been set back, or did not have to be. */
    method Release(lapsed: bool) returns (done: bool)
      requires word.word < WORD
      modifies this, word
      ensures var after := DslrWord.FetchAdd(old(word.word), NextSegment(mode), 1);
              if lapsed && old(resetFrom) == 0 then done && word.word == old(word.word) && resetFrom == 0
              else if old(resetFrom) == 0 then done && word.word == after && resetFrom == 0
              else
                && done == (after == old(resetFrom)) && word.word == (if done then 0 else after)
                && resetFrom == if done then 0 else old(resetFrom)
    {
      done := true;
      if !lapsed || resetFrom > 0 {
        var _ := word.FetchAdd(NextSegment(mode), 1);
        if resetFrom > 0 {
          var prev := word.CompareAndSwap(resetFrom, 0);
          done := prev == resetFrom;
          if done { resetFrom := 0; }
        }
      }
    }
  }

  /** The answer is that of the first decisive poll. */
  ghost predicate Waited(mode: Mode, prev: Counters, polls: seq<nat>, answer: Answer) {
    if answer.StillWaiting? then forall i | 0 <= i < |polls| :: !TurnedAway(prev, Decode(polls[i])) && !Served(mode, prev, Decode(polls[i]))
    else exists i: nat :: DecidedAt(mode, prev, polls, i) && (answer == Refused <==> TurnedAway(prev, Decode(polls[i])))
  }

  /** When the counters are not at their limits, a lone client gets the lock at once, and releasing it
      leaves a word in which all tickets are served, so that the next one gets it at once too. */
  lemma AloneNeverWaits(w: nat, mode: Mode)
    requires w < WORD && Decode(w).nx == Decode(w).maxx && Decode(w).ns == Decode(w).maxs && !Full(Decode(w))
    ensures Served(mode, Decode(w), Decode(w))
    ensures var after := Decode(DslrWord.FetchAdd(DslrWord.FetchAdd(w, MaxSegment(mode), 1), NextSegment(mode), 1));
            after.nx == after.maxx && after.ns == after.maxs
            && after.nx + after.ns == Decode(w).nx + Decode(w).ns + 1
  {
    var c := Decode(w);
    EncodeDecode(w);
    if mode.Shared? { SharedRound(c); } else { ExclusiveRound(c); }
  }

  lemma SharedRound(c: Counters)
    requires c.nx < BASE && c.ns + 1 < BASE && c.maxx < BASE && c.maxs + 1 < BASE
    ensures Decode(DslrWord.FetchAdd(DslrWord.FetchAdd(Enc(c.nx, c.ns, c.maxx, c.maxs), MAXS, 1), NS, 1)) == Counters(c.nx, c.ns + 1, c.maxx, c.maxs + 1)
  {
    AddOne(c.nx, c.ns, c.maxx, c.maxs);
    AddOne(c.nx, c.ns, c.maxx, c.maxs + 1);
    DecodeEncode(c.nx, c.ns + 1, c.maxx, c.maxs + 1);
  }

  lemma ExclusiveRound(c: Counters)
    requires c.nx + 1 < BASE && c.ns < BASE && c.maxx + 1 < BASE && c.maxs < BASE
    ensures Decode(DslrWord.FetchAdd(DslrWord.FetchAdd(Enc(c.nx, c.ns, c.maxx, c.maxs), MAXX, 1), NX, 1)) == Counters(c.nx + 1, c.ns, c.maxx + 1, c.maxs)
  {
    AddOne(c.nx, c.ns, c.maxx, c.maxs);
    AddOne(c.nx, c.ns, c.maxx + 1, c.maxs);
    DecodeEncode(c.nx + 1, c.ns, c.maxx + 1, c.maxs);
  }
}
