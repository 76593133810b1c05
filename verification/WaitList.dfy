/** The list of lock requests that a worker has put off, and the pass that answers them.

    Locks are wait-die: a request may wait only for a lock with a greater stamp. A pass grants free locks,
    refuses requests that have come to face a smaller stamp, and leaves the others waiting. A transaction
    of the wait-die protocol has two stamps, the greater one for its write locks. */
module WaitList {

  type Lock = nat
  type Addr = nat

  /** The kinds of request; start times are shifted to make room for the lock's lower bits, except for
      the requests of the lease protocol. */
  datatype Kind = LockRead | LockWrite | SundialLockRead

  datatype Waiter = Waiter(kind: Kind, pid: nat, cid: nat, start: nat, lock: Lock)

  /** The value that a granted request puts into the lock word. */
  function Stamp(w: Waiter): nat {
    match w.kind
    case LockRead => w.start * 512
    case LockWrite => w.start * 512 + 1
    case SundialLockRead => w.start
  }

  datatype Answer = Granted | Refused

  datatype Reply = Reply(pid: nat, cid: nat, answer: Answer)

  type Locks = map<Lock, nat>

  // ---------------------------------------------------------------------------------------------
  // What a pass decides
  // ---------------------------------------------------------------------------------------------

  /** The first of the waiters for lock k. */
  ghost predicate FirstFor(ws: seq<Waiter>, i: nat, k: Lock) {
    i < |ws| && ws[i].lock == k && forall j | 0 <= j < i :: ws[j].lock != k
  }

  ghost predicate NoneBefore(ws: seq<Waiter>, n: nat, k: Lock)
    requires n <= |ws|
  {
    forall j | 0 <= j < n :: ws[j].lock != k
  }

  /** The word of lock k when the first n waiters have been looked at: a free lock goes to the first
      that waits for it. */
  ghost predicate WordAt(ws: seq<Waiter>, n: nat, k: Lock, before: nat, now: nat)
    requires n <= |ws|
  {
    if before != 0 || NoneBefore(ws, n, k) then now == before
    else exists i: nat :: i < n && FirstFor(ws, i, k) && now == Stamp(ws[i])
  }

  ghost predicate LocksAt(ws: seq<Waiter>, before: Locks, now: Locks, n: nat)
    requires n <= |ws|
  {
    now.Keys == before.Keys && forall k | k in before :: WordAt(ws, n, k, before[k], now[k])
  }

  /** The lock words after a pass over ws. */
  ghost predicate LocksAfter(ws: seq<Waiter>, before: Locks, after: Locks) {
    LocksAt(ws, before, after, |ws|)
  }

  /** The i-th waiter is the one that gets its lock. */
  ghost predicate Wins(ws: seq<Waiter>, before: Locks, i: nat) {
    i < |ws| && ws[i].lock in before && before[ws[i].lock] == 0 && FirstFor(ws, i, ws[i].lock)
  }

  /** The i-th waiter goes on waiting: its lock has been taken with a greater stamp. */
  ghost predicate Stays(ws: seq<Waiter>, before: Locks, after: Locks, i: nat) {
    i < |ws| && ws[i].lock in after && !Wins(ws, before, i) && Stamp(ws[i]) < after[ws[i].lock]
  }

  /** The waiters that stay, in their order, and the replies to all the others, in theirs. */
  ghost function Left(ws: seq<Waiter>, before: Locks, after: Locks, n: nat): seq<Waiter>
    requires n <= |ws|
  {
    if n == 0 then [] else Left(ws, before, after, n - 1) + (if Stays(ws, before, after, n - 1) then [ws[n - 1]] else [])
  }

  ghost function Replies(ws: seq<Waiter>, before: Locks, after: Locks, n: nat): seq<Reply>
    requires n <= |ws|
  {
    if n == 0 then []
    else Replies(ws, before, after, n - 1)
         + (if Stays(ws, before, after, n - 1) then []
            else [Reply(ws[n - 1].pid, ws[n - 1].cid, if Wins(ws, before, n - 1) then Granted else Refused)])
  }

  /** Everybody is either still waiting or has been answered, once. */
  lemma {:induction false} EachOnce(ws: seq<Waiter>, before: Locks, after: Locks, n: nat)
    requires n <= |ws|
    ensures |Left(ws, before, after, n)| + |Replies(ws, before, after, n)| == n
    ensures forall w | w in Left(ws, before, after, n) :: exists i :: 0 <= i < n && ws[i] == w && Stays(ws, before, after, i)
  {
    if n > 0 { EachOnce(ws, before, after, n - 1); }
  }

  /** After a pass everybody who waits, waits for a lock with a greater stamp than its own. */
  lemma LeftIsOlder(ws: seq<Waiter>, before: Locks, after: Locks, w: Waiter)
    requires w in Left(ws, before, after, |ws|)
    ensures w.lock in after && Stamp(w) < after[w.lock]
  {
    EachOnce(ws, before, after, |ws|);
  }

  // ---------------------------------------------------------------------------------------------
  // Who waits for whom
  // ---------------------------------------------------------------------------------------------

  /** A list serves one protocol, which says what a lock word tells about the start of its holder. */
  datatype Protocol = WaitDie | Leases

  predicate Serves(p: Protocol, w: Waiter) {
    p.Leases? <==> w.kind.SundialLockRead?
  }

  /** The start of the transaction that has put this word into a lock. */
  function Holder(p: Protocol, word: nat): nat {
    if p.Leases? then word else word / 512
  }

  predicate ProperWord(p: Protocol, word: nat) {
    p.WaitDie? ==> word % 512 <= 1
  }

  ghost predicate Proper(p: Protocol, ws: seq<Waiter>, locks: Locks) {
    (forall i | 0 <= i < |ws| :: Serves(p, ws[i])) && forall k | k in locks :: ProperWord(p, locks[k])
  }

  lemma PassKeepsProper(p: Protocol, ws: seq<Waiter>, before: Locks, after: Locks)
    requires Proper(p, ws, before) && LocksAfter(ws, before, after)
    ensures Proper(p, ws, after)
  {
    forall k | k in after ensures ProperWord(p, after[k]) { assert WordAt(ws, |ws|, k, before[k], after[k]); }
  }

  /** The transaction that started at a waits for the one that started at b. */
  ghost predicate WaitsFor(p: Protocol, ws: seq<Waiter>, locks: Locks, a: nat, b: nat) {
    exists w :: w in ws && w.lock in locks && w.start == a && Holder(p, locks[w.lock]) == b
  }

  ghost predicate WaitPath(p: Protocol, ws: seq<Waiter>, locks: Locks, path: seq<nat>) {
    1 < |path| && forall i | 0 <= i < |path| - 1 :: WaitsFor(p, ws, locks, path[i], path[i + 1])
  }

  ghost predicate Cycle(p: Protocol, ws: seq<Waiter>, locks: Locks, path: seq<nat>) {
    WaitPath(p, ws, locks, path) && path[0] == path[|path| - 1]
  }

  /** A read request that faces the write lock of its own transaction. */
  predicate OwnWriteLock(w: Waiter, locks: Locks) {
    w.kind.LockRead? && w.lock in locks && locks[w.lock] == w.start * 512 + 1
  }

  /** The stamp that a request puts into a lock word tells when its transaction started. */
  lemma StampTells(p: Protocol, w: Waiter)
    requires Serves(p, w)
    ensures Holder(p, Stamp(w)) == w.start && ProperWord(p, Stamp(w))
    ensures Stamp(w) == if p.Leases? then w.start else w.start * 512 + if w.kind.LockWrite? then 1 else 0
  {
  }

  /** Who waits before the i-th for the same lock, or has it. */
  predicate ComesTooLate(ws: seq<Waiter>, before: Locks, i: nat)
    requires i < |ws| && ws[i].lock in before
  {
    before[ws[i].lock] != 0 || exists j :: 0 <= j < i && ws[j].lock == ws[i].lock
  }

  /** A pass grants a request exactly if the lock was free and nobody before asked for it. Of the others
      it leaves waiting exactly those that started before the lock's holder, and those that face
      their own write lock; and it refuses the rest. */
  lemma FateOf(p: Protocol, ws: seq<Waiter>, before: Locks, after: Locks, i: nat)
    requires Proper(p, ws, before) && Sane(ws, before) && LocksAfter(ws, before, after) && i < |ws|
    ensures var w, left, replies := ws[i], Left(ws, before, after, |ws|), Replies(ws, before, after, |ws|);
            if !ComesTooLate(ws, before, i) then
              after[w.lock] == Stamp(w) && Holder(p, after[w.lock]) == w.start && Reply(w.pid, w.cid, Granted) in replies
            else if w.start < Holder(p, after[w.lock]) || OwnWriteLock(w, after) then
              w in left
            else
              Reply(w.pid, w.cid, Refused) in replies
    ensures Stays(ws, before, after, i) <==>
              ComesTooLate(ws, before, i) && (ws[i].start < Holder(p, after[ws[i].lock]) || OwnWriteLock(ws[i], after))
  {
    var w := ws[i];
    StampTells(p, w);
    PassKeepsProper(p, ws, before, after);
    assert ProperWord(p, after[w.lock]);
    assert WordAt(ws, |ws|, w.lock, before[w.lock], after[w.lock]);
    if !ComesTooLate(ws, before, i) {
      assert FirstFor(ws, i, w.lock);
      var j: nat :| j < |ws| && FirstFor(ws, j, w.lock) && after[w.lock] == Stamp(ws[j]);
      OneFirst(ws, i, j, w.lock);
    }
    if Stays(ws, before, after, i) { StaysInLeft(ws, before, after, i, |ws|); } else { AnsweredInReplies(ws, before, after, i, |ws|); }
  }

  lemma {:induction false} AnsweredInReplies(ws: seq<Waiter>, before: Locks, after: Locks, i: nat, n: nat)
    requires i < n <= |ws| && !Stays(ws, before, after, i)
    ensures Reply(ws[i].pid, ws[i].cid, if Wins(ws, before, i) then Granted else Refused) in Replies(ws, before, after, n)
  {
    if i < n - 1 { AnsweredInReplies(ws, before, after, i, n - 1); }
  }

  /** Every reply answers a waiter, and a lock is granted to one at most. */
  lemma {:induction false} RepliesAnswer(ws: seq<Waiter>, before: Locks, after: Locks, n: nat, r: nat)
    requires n <= |ws| && r < |Replies(ws, before, after, n)|
    ensures exists i :: 0 <= i < n && !Stays(ws, before, after, i)
                        && Replies(ws, before, after, n)[r] == Reply(ws[i].pid, ws[i].cid, if Wins(ws, before, i) then Granted else Refused)
    ensures forall i, j | 0 <= i < j < n && Wins(ws, before, i) && Wins(ws, before, j) :: ws[i].lock != ws[j].lock
  {
    if r < |Replies(ws, before, after, n - 1)| { RepliesAnswer(ws, before, after, n - 1, r); }
  }

  /** A lock that nobody asked for, or that was taken, keeps its word. */
  lemma OthersKeepTheirWord(ws: seq<Waiter>, before: Locks, after: Locks, k: Lock)
    requires LocksAfter(ws, before, after) && k in before && (before[k] != 0 || forall i | 0 <= i < |ws| :: ws[i].lock != k)
    ensures after.Keys == before.Keys && after[k] == before[k]
  {
    assert WordAt(ws, |ws|, k, before[k], after[k]);
  }

  /** After a pass one waits for a transaction that is younger, or for oneself. */
  lemma WaitsForYounger(p: Protocol, ws: seq<Waiter>, before: Locks, after: Locks, w: Waiter)
    requires Proper(p, ws, before) && LocksAfter(ws, before, after) && w in Left(ws, before, after, |ws|)
    ensures w.lock in after && w.start <= Holder(p, after[w.lock])
    ensures w.start == Holder(p, after[w.lock]) <==> OwnWriteLock(w, after)
  {
    LeftIsOlder(ws, before, after, w);
    EachOnce(ws, before, after, |ws|);
    PassKeepsProper(p, ws, before, after);
    assert Serves(p, w) && ProperWord(p, after[w.lock]);
  }

  /** Along a chain of waiters starts increase, unless somebody waits for itself. */
  lemma {:induction false} PathIncreases(p: Protocol, ws: seq<Waiter>, before: Locks, after: Locks, path: seq<nat>)
    requires Proper(p, ws, before) && LocksAfter(ws, before, after) && WaitPath(p, Left(ws, before, after, |ws|), after, path)
    requires forall w | w in Left(ws, before, after, |ws|) :: !OwnWriteLock(w, after)
    ensures path[0] < path[|path| - 1]
    decreases |path|
  {
    var left := Left(ws, before, after, |ws|);
    var n := |path| - 1;
    assert WaitsFor(p, left, after, path[n - 1], path[n]);
    var w :| w in left && w.lock in after && w.start == path[n - 1] && Holder(p, after[w.lock]) == path[n];
    WaitsForYounger(p, ws, before, after, w);
    if n > 1 {
      var shorter := path[..n];
      forall i | 0 <= i < |shorter| - 1 ensures WaitsFor(p, left, after, shorter[i], shorter[i + 1]) {
        assert WaitsFor(p, left, after, path[i], path[i + 1]);
      }
      PathIncreases(p, ws, before, after, shorter);
    }
  }

  /** After a pass there is a deadlock, through any number of waiters, exactly if a transaction's read
      request faces its own write lock. */
  lemma DeadlockIsOwnLock(p: Protocol, ws: seq<Waiter>, before: Locks, after: Locks)
    requires Proper(p, ws, before) && LocksAfter(ws, before, after)
    ensures (exists path :: Cycle(p, Left(ws, before, after, |ws|), after, path))
            <==> exists w :: w in Left(ws, before, after, |ws|) && OwnWriteLock(w, after)
  {
    var left := Left(ws, before, after, |ws|);
    if w :| w in left && OwnWriteLock(w, after) {
      WaitsForYounger(p, ws, before, after, w);
      assert WaitsFor(p, left, after, w.start, w.start);
      assert Cycle(p, left, after, [w.start, w.start]);
    } else if path :| Cycle(p, left, after, path) {
      PathIncreases(p, ws, before, after, path);
    }
  }

  /** The i-th waiter asks to read what its transaction has locked for writing, or is about to lock in
      this pass. */
  ghost predicate AsksAgain(ws: seq<Waiter>, before: Locks, i: nat) {
    && i < |ws| && ws[i].kind.LockRead? && ws[i].lock in before
    && (OwnWriteLock(ws[i], before)
        || exists j: nat :: before[ws[i].lock] == 0 && FirstFor(ws, j, ws[i].lock) && ws[j].kind.LockWrite? && ws[j].start == ws[i].start)
  }

  /** So whether a pass leaves a deadlock can be told before it: somebody must have asked to read what
      it has locked for writing. */
  lemma DeadlockExactlyWhen(p: Protocol, ws: seq<Waiter>, before: Locks, after: Locks)
    requires Proper(p, ws, before) && Sane(ws, before) && LocksAfter(ws, before, after)
    ensures (exists path :: Cycle(p, Left(ws, before, after, |ws|), after, path)) <==> exists i :: AsksAgain(ws, before, i)
  {
    DeadlockIsOwnLock(p, ws, before, after);
    EachOnce(ws, before, after, |ws|);
    var left := Left(ws, before, after, |ws|);
    if i: nat :| AsksAgain(ws, before, i) {
      AskingAgainStays(ws, before, after, i);
    }
    if w :| w in left && OwnWriteLock(w, after) {
      var i :| 0 <= i < |ws| && ws[i] == w && Stays(ws, before, after, i);
      assert WordAt(ws, |ws|, w.lock, before[w.lock], after[w.lock]);
      assert AsksAgain(ws, before, i);
    }
  }

  lemma AskingAgainStays(ws: seq<Waiter>, before: Locks, after: Locks, i: nat)
    requires AsksAgain(ws, before, i) && LocksAfter(ws, before, after)
    ensures OwnWriteLock(ws[i], after) && ws[i] in Left(ws, before, after, |ws|)
  {
    var k := ws[i].lock;
    assert WordAt(ws, |ws|, k, before[k], after[k]);
    if before[k] == 0 {
      var j: nat :| FirstFor(ws, j, k) && ws[j].kind.LockWrite? && ws[j].start == ws[i].start;
      var m: nat :| m < |ws| && FirstFor(ws, m, k) && after[k] == Stamp(ws[m]);
      OneFirst(ws, j, m, k);
    }
    StaysInLeft(ws, before, after, i, |ws|);
  }

  lemma {:induction false} StaysInLeft(ws: seq<Waiter>, before: Locks, after: Locks, i: nat, n: nat)
    requires i < n <= |ws| && Stays(ws, before, after, i)
    ensures ws[i] in Left(ws, before, after, n)
  {
    if i < n - 1 { StaysInLeft(ws, before, after, i, n - 1); }
  }

  /** Such a request does come: a transaction that writes a record and then reads it is put off by its
      own lock, and every pass leaves it waiting for itself. */
  lemma WaitsForItself(start: nat, pid: nat, cid: nat)
    requires 0 < start
    ensures var ws, locks := [Waiter(LockRead, pid, cid, start, 0)], map[0 := Stamp(Waiter(LockWrite, pid, cid, start, 0))];
            && Proper(WaitDie, ws, locks) && Sane(ws, locks) && LocksAfter(ws, locks, locks) && Left(ws, locks, locks, 1) == ws
            && Cycle(WaitDie, ws, locks, [start, start])
  {
    var w := Waiter(LockRead, pid, cid, start, 0);
    var ws, locks := [w], map[0 := Stamp(Waiter(LockWrite, pid, cid, start, 0))];
    assert Stays(ws, locks, locks, 0);
    assert Left(ws, locks, locks, 0) == [];
    assert w in ws && WaitsFor(WaitDie, ws, locks, start, start);
  }

  /** The requests of the lease protocol never wait for themselves: there is no deadlock. */
  lemma LeasesNeverDeadlock(ws: seq<Waiter>, before: Locks, after: Locks, path: seq<nat>)
    requires Proper(Leases, ws, before) && LocksAfter(ws, before, after) && WaitPath(Leases, Left(ws, before, after, |ws|), after, path)
    ensures path[0] < path[|path| - 1]
  {
    EachOnce(ws, before, after, |ws|);
    PathIncreases(Leases, ws, before, after, path);
  }

  // ---------------------------------------------------------------------------------------------
  // Two requests for one lock
  // ---------------------------------------------------------------------------------------------

  lemma {:induction false} FirstReply(ws: seq<Waiter>, before: Locks, after: Locks, n: nat)
    requires 0 < n <= |ws| && !Stays(ws, before, after, 0)
    ensures var r := Replies(ws, before, after, n);
            r != [] && r[0] == Reply(ws[0].pid, ws[0].cid, if Wins(ws, before, 0) then Granted else Refused)
  {
    if 1 < n {
      FirstReply(ws, before, after, n - 1);
    } else {
      assert Replies(ws, before, after, 0) == [];
    }
  }

  // ---------------------------------------------------------------------------------------------
  // Passing over one waiter at a time
  // ---------------------------------------------------------------------------------------------

  lemma OneFirst(ws: seq<Waiter>, i: nat, j: nat, k: Lock)
    requires FirstFor(ws, i, k) && FirstFor(ws, j, k)
    ensures i == j
  {
  }

  /** A lock word is settled once somebody who waits for it has been looked at. */
  lemma Settled(ws: seq<Waiter>, before: Locks, now: Locks, after: Locks, n: nat, k: Lock)
    requires n <= |ws| && LocksAt(ws, before, now, n) && LocksAfter(ws, before, after)
    requires k in before && (before[k] != 0 || !NoneBefore(ws, n, k))
    ensures now[k] == after[k]
  {
    assert WordAt(ws, n, k, before[k], now[k]) && WordAt(ws, |ws|, k, before[k], after[k]);
    if before[k] == 0 {
      var i: nat :| i < n && FirstFor(ws, i, k) && now[k] == Stamp(ws[i]);
      var j: nat :| j < |ws| && FirstFor(ws, j, k) && after[k] == Stamp(ws[j]);
      OneFirst(ws, i, j, k);
    }
  }

  /** Everybody waits for a lock that exists, with a stamp that is not 0. */
  ghost predicate Sane(ws: seq<Waiter>, locks: Locks) {
    forall i | 0 <= i < |ws| :: 0 < Stamp(ws[i]) && ws[i].lock in locks
  }

  /** The waiter that is looked at next finds the lock word 0 exactly if it is the one to win. */
  lemma FindsFree(ws: seq<Waiter>, before: Locks, now: Locks, n: nat)
    requires n < |ws| && LocksAt(ws, before, now, n) && Sane(ws, before)
    ensures now[ws[n].lock] == 0 <==> Wins(ws, before, n)
  {
    var k := ws[n].lock;
    assert WordAt(ws, n, k, before[k], now[k]);
    if before[k] == 0 && !NoneBefore(ws, n, k) {
      var i: nat :| i < n && FirstFor(ws, i, k) && now[k] == Stamp(ws[i]);
      assert 0 < Stamp(ws[i]);
    }
  }

  /** ... and takes the lock then. */
  lemma LookAt(ws: seq<Waiter>, before: Locks, now: Locks, n: nat)
    requires n < |ws| && LocksAt(ws, before, now, n) && Sane(ws, before)
    ensures LocksAt(ws, before, if now[ws[n].lock] == 0 then now[ws[n].lock := Stamp(ws[n])] else now, n + 1)
  {
    var k := ws[n].lock;
    var next := if now[k] == 0 then now[k := Stamp(ws[n])] else now;
    FindsFree(ws, before, now, n);
    forall x | x in before ensures WordAt(ws, n + 1, x, before[x], next[x]) {
      assert WordAt(ws, n, x, before[x], now[x]);
      if before[x] == 0 && !NoneBefore(ws, n, x) {
        var i: nat :| i < n && FirstFor(ws, i, x) && now[x] == Stamp(ws[i]);
        assert 0 < Stamp(ws[i]);
        assert i < n + 1 && FirstFor(ws, i, x) && next[x] == Stamp(ws[i]);
      } else if x == k && before[x] == 0 {
        assert n < n + 1 && FirstFor(ws, n, x) && next[x] == Stamp(ws[n]);
      }
    }
  }

  /** There is exactly one outcome of a pass. */
  lemma {:induction false} PassExists(ws: seq<Waiter>, before: Locks, n: nat) returns (now: Locks)
    requires n <= |ws| && Sane(ws, before)
    ensures LocksAt(ws, before, now, n)
  {
    if n == 0 {
      now := before;
    } else {
      var was := PassExists(ws, before, n - 1);
      LookAt(ws, before, was, n - 1);
      now := if was[ws[n - 1].lock] == 0 then was[ws[n - 1].lock := Stamp(ws[n - 1])] else was;
    }
  }

  lemma PassUnique(ws: seq<Waiter>, before: Locks, a: Locks, b: Locks)
    requires LocksAfter(ws, before, a) && LocksAfter(ws, before, b)
    ensures a == b
  {
    forall k | k in before ensures a[k] == b[k] {
      assert WordAt(ws, |ws|, k, before[k], a[k]) && WordAt(ws, |ws|, k, before[k], b[k]);
      if before[k] == 0 && !NoneBefore(ws, |ws|, k) { Settled(ws, before, a, b, |ws|, k); }
    }
  }

  /** What is decided about the next waiter is what the whole pass makes of it. */
  lemma Decided(ws: seq<Waiter>, before: Locks, now: Locks, after: Locks, n: nat)
    requires n < |ws| && LocksAt(ws, before, now, n) && LocksAfter(ws, before, after) && Sane(ws, before)
    ensures Wins(ws, before, n) <==> now[ws[n].lock] == 0
    ensures Stays(ws, before, after, n) <==> now[ws[n].lock] != 0 && Stamp(ws[n]) < now[ws[n].lock]
    ensures LocksAt(ws, before, if now[ws[n].lock] == 0 then now[ws[n].lock := Stamp(ws[n])] else now, n + 1)
  {
    var k := ws[n].lock;
    FindsFree(ws, before, now, n);
    LookAt(ws, before, now, n);
    assert !NoneBefore(ws, n + 1, k);
    Settled(ws, before, if now[k] == 0 then now[k := Stamp(ws[n])] else now, after, n + 1, k);
  }

  // ---------------------------------------------------------------------------------------------
  // The list
  // ---------------------------------------------------------------------------------------------

  /** A node of the list; 0 is the null address. */
  datatype ListNode = ListNode(waiter: Waiter, next: Addr, prev: Addr)

  /** The nodes at these addresses, in this order, are linked both ways. */
  ghost predicate LinkedList(nodes: map<Addr, ListNode>, list: seq<Addr>) {
    && (forall i, j | 0 <= i < j < |list| :: list[i] != list[j])
    && forall i | 0 <= i < |list| :: LinkedAt(nodes, list, i)
  }

  ghost predicate LinkedAt(nodes: map<Addr, ListNode>, list: seq<Addr>, i: nat)
    requires i < |list|
  {
    && list[i] != 0 && list[i] in nodes
    && nodes[list[i]].next == (if i + 1 < |list| then list[i + 1] else 0)
    && nodes[list[i]].prev == (if 0 < i then list[i - 1] else 0)
  }

  ghost predicate AllIn(nodes: map<Addr, ListNode>, list: seq<Addr>) {
    forall i | 0 <= i < |list| :: list[i] in nodes
  }

  /** The i-th waiter asks for a lock that exists. */
  ghost predicate Sensible(nodes: map<Addr, ListNode>, list: seq<Addr>, locks: Locks, i: nat)
    requires i < |list| && list[i] in nodes
  {
    nodes[list[i]].waiter.lock in locks && 0 < Stamp(nodes[list[i]].waiter)
  }

  ghost function WaitersAt(nodes: map<Addr, ListNode>, list: seq<Addr>): (ws: seq<Waiter>)
    requires AllIn(nodes, list)
    ensures |ws| == |list| && forall i | 0 <= i < |ws| :: ws[i] == nodes[list[i]].waiter
  {
    seq(|list|, i requires 0 <= i < |list| => nodes[list[i]].waiter)
  }

  /** A pass has looked at the first n of the waiters ws, which were at list0, and kept some of them. */
  ghost predicate Passing(nodes: map<Addr, ListNode>, list: seq<Addr>, locks: Locks, sent: seq<Reply>,
                          ws: seq<Waiter>, list0: seq<Addr>, before: Locks, after: Locks, kept: seq<Addr>, n: nat, said: seq<Reply>)
  {
    && n <= |list0| == |ws| && list == kept + list0[n..]
    && (forall i | n <= i < |list0| :: list0[i] in nodes && list0[i] != 0 && nodes[list0[i]].waiter == ws[i])
    && LocksAt(ws, before, locks, n)
    && AllIn(nodes, kept) && WaitersAt(nodes, kept) == Left(ws, before, after, n)
    && sent == said + Replies(ws, before, after, n)
  }

  lemma KeptOne(nodes: map<Addr, ListNode>, list: seq<Addr>, locks: Locks, sent: seq<Reply>,
                ws: seq<Waiter>, list0: seq<Addr>, before: Locks, after: Locks, kept: seq<Addr>, n: nat, said: seq<Reply>)
    requires Passing(nodes, list, locks, sent, ws, list0, before, after, kept, n, said) && n < |list0|
    requires Stays(ws, before, after, n) && LocksAt(ws, before, locks, n + 1)
    ensures Passing(nodes, list, locks, sent, ws, list0, before, after, kept + [list0[n]], n + 1, said)
  {
    assert list0[n..] == [list0[n]] + list0[n + 1..];
    assert WaitersAt(nodes, kept + [list0[n]]) == WaitersAt(nodes, kept) + [ws[n]];
  }

  lemma AnsweredOne(nodes: map<Addr, ListNode>, nodes': map<Addr, ListNode>, list: seq<Addr>, list': seq<Addr>, locks: Locks, locks': Locks,
                    sent: seq<Reply>, sent': seq<Reply>,
                    ws: seq<Waiter>, list0: seq<Addr>, before: Locks, after: Locks, kept: seq<Addr>, n: nat, said: seq<Reply>)
    requires Passing(nodes, list, locks, sent, ws, list0, before, after, kept, n, said) && n < |list0|
    requires !Stays(ws, before, after, n) && LocksAt(ws, before, locks', n + 1)
    requires nodes'.Keys == nodes.Keys && (forall a | a in nodes :: nodes'[a].waiter == nodes[a].waiter)
    requires |kept| < |list| && list' == list[..|kept|] + list[|kept| + 1..]
    requires sent' == sent + [Reply(ws[n].pid, ws[n].cid, if Wins(ws, before, n) then Granted else Refused)]
    ensures Passing(nodes', list', locks', sent', ws, list0, before, after, kept, n + 1, said)
  {
    assert list0[n..] == [list0[n]] + list0[n + 1..];
    assert WaitersAt(nodes', kept) == WaitersAt(nodes, kept);
  }

  class GlobalLockManager {
    var nodes: map<Addr, ListNode>
    var head: Addr
    var cnt: int
    var nextAddr: Addr
    var locks: Locks
    var sent: seq<Reply>

    /** The addresses of the list, from the head on. */
    ghost var list: seq<Addr>

    ghost predicate Valid()
      reads this
    {
      && LinkedList(nodes, list) && AllIn(nodes, list) && head == (if list == [] then 0 else list[0])
      && cnt == |list| && 0 < nextAddr && (forall a | a in nodes :: a < nextAddr)
      && forall i {:trigger Sensible(nodes, list, locks, i)} | 0 <= i < |list| :: Sensible(nodes, list, locks, i)
    }

    ghost function Waiters(): seq<Waiter>
      requires Valid()
      reads this
    {
      WaitersAt(nodes, list)
    }

    constructor (locks: Locks)
      ensures Valid() && list == [] && this.locks == locks && sent == []
    {
      nodes, head, cnt, nextAddr, sent, list := map[], 0, 0, 1, [], [];
      this.locks := locks;
    }

    /** New waiters go to the front. */
    method AddToWaitlist(w: Waiter)
      requires Valid() && w.lock in locks && 0 < Stamp(w)
      modifies this
      ensures Valid() && Waiters() == [w] + old(Waiters()) && locks == old(locks) && sent == old(sent)
    {
      if list != [] { assert LinkedAt(nodes, list, 0); }
      var a := nextAddr;
      nextAddr := nextAddr + 1;
      nodes := nodes[a := ListNode(w, 0, 0)];
      if head == 0 {
        head := a;
      } else {
        nodes := nodes[head := nodes[head].(prev := a)];
        nodes := nodes[a := nodes[a].(next := head)];
        head := a;
      }
      cnt := cnt + 1;
      AddedLinks(old(nodes), nodes, list, a, w);
      forall i | 0 <= i < |list| + 1 ensures Sensible(nodes, [a] + list, locks, i) {
        if 0 < i { assert Sensible(old(nodes), list, locks, i - 1); }
      }
      list := [a] + list;
    }

    /** check_to_notify: answer everybody who can be answered. */
    method CheckToNotify()
      requires Valid()
      modifies this
      ensures Valid() && LocksAfter(old(Waiters()), old(locks), locks)
      ensures Waiters() == Left(old(Waiters()), old(locks), locks, |old(Waiters())|)
      ensures sent == old(sent) + Replies(old(Waiters()), old(locks), locks, |old(Waiters())|)
    {
      ghost var ws, list0, before := Waiters(), list, locks;
      WaitersSane();
      ghost var after := PassExists(ws, before, |ws|);
      StartPass(after);
      var iter := head;
      ghost var n, kept: seq<Addr> := 0, [];
      while iter != 0
        invariant Valid() && Passing(nodes, list, locks, sent, ws, list0, before, after, kept, n, old(sent))
        invariant iter == (if n < |list0| then list0[n] else 0)
        decreases |list0| - n
      {
        kept, n := LookAtNode(iter, ws, list0, before, after, kept, n, old(sent));
        iter := nodes[iter].next;
      }
      EndPass(ws, list0, before, after, kept, old(sent));
    }

    /** One node of the list: answer its waiter and take it out, or go on to the next. */
    method LookAtNode(iter: Addr, ghost ws: seq<Waiter>, ghost list0: seq<Addr>, ghost before: Locks, ghost after: Locks,
                      ghost kept: seq<Addr>, ghost n: nat, ghost said: seq<Reply>) returns (ghost kept': seq<Addr>, ghost n': nat)
      requires Valid() && Passing(nodes, list, locks, sent, ws, list0, before, after, kept, n, said) && n < |list0| && iter == list0[n]
      requires LocksAfter(ws, before, after) && Sane(ws, before)
      modifies this
      ensures n' == n + 1 && Valid() && Passing(nodes, list, locks, sent, ws, list0, before, after, kept', n', said)
      ensures iter in nodes && nodes[iter].next == if n' < |list0| then list0[n'] else 0
    {
      NodeInList(ws, list0, before, after, kept, n, said);
      Decided(ws, before, locks, after, n);
      var w := nodes[iter].waiter;
      var answered, answer := Decide(w);
      n' := n + 1;
      kept' := if answered then kept else kept + [iter];
      if answered {
        AnswerNode(iter, w, answer, |kept|);
        AnsweredOne(old(nodes), nodes, old(list), list, old(locks), locks, old(sent), sent, ws, list0, before, after, kept, n, said);
      } else {
        KeptOne(nodes, list, locks, sent, ws, list0, before, after, kept, n, said);
      }
    }

    /** What a pass does about one waiter: take the lock for it, refuse it, or let it wait. */
    method Decide(w: Waiter) returns (answered: bool, answer: Answer)
      requires Valid() && w.lock in locks
      modifies this`locks
      ensures Valid() && locks == if old(locks)[w.lock] == 0 then old(locks)[w.lock := Stamp(w)] else old(locks)
      ensures answered == (old(locks)[w.lock] == 0 || old(locks)[w.lock] <= Stamp(w))
      ensures answered ==> answer == if old(locks)[w.lock] == 0 then Granted else Refused
    {
      var l := locks[w.lock];
      if l == 0 {
        locks := locks[w.lock := Stamp(w)];
        forall i | 0 <= i < |list| ensures Sensible(nodes, list, locks, i) { assert Sensible(nodes, list, old(locks), i); }
        return true, Granted;
      }
      answered := !(Stamp(w) < l);
      answer := Refused;
    }

    lemma NodeInList(ws: seq<Waiter>, list0: seq<Addr>, before: Locks, after: Locks, kept: seq<Addr>, n: nat, said: seq<Reply>)
      requires Valid() && Passing(nodes, list, locks, sent, ws, list0, before, after, kept, n, said) && n < |list0|
      ensures |kept| < |list| && list[|kept|] == list0[n] && list0[n] in nodes
      ensures nodes[list0[n]].next == (if n + 1 < |list0| then list0[n + 1] else 0) && nodes[list0[n]].waiter == ws[n]
    {
      assert LinkedAt(nodes, list, |kept|);
      assert list[|kept|] == list0[n..][0];
      if n + 1 < |list0| { assert list[|kept| + 1] == list0[n..][1]; }
    }

    /** Send the answer and take the node out of the list. */
    method AnswerNode(iter: Addr, w: Waiter, answer: Answer, ghost i: nat)
      requires Valid() && i < |list| && list[i] == iter
      modifies this`nodes, this`head, this`cnt, this`list, this`sent
      ensures Valid() && list == old(list)[..i] + old(list)[i + 1..] && sent == old(sent) + [Reply(w.pid, w.cid, answer)]
      ensures nodes.Keys == old(nodes.Keys) && forall a | a in nodes :: nodes[a].waiter == old(nodes)[a].waiter
      ensures nodes[iter] == old(nodes)[iter]
    {
      sent := sent + [Reply(w.pid, w.cid, answer)];
      Unlink(iter, i);
    }

    lemma WaitersSane()
      requires Valid()
      ensures Sane(Waiters(), locks) && forall i | 0 <= i < |list| :: list[i] != 0
    {
      forall i | 0 <= i < |list| ensures 0 < Stamp(Waiters()[i]) && Waiters()[i].lock in locks && list[i] != 0 {
        assert Sensible(nodes, list, locks, i) && LinkedAt(nodes, list, i);
      }
    }

    lemma StartPass(after: Locks)
      requires Valid() && forall i | 0 <= i < |list| :: list[i] != 0
      ensures Passing(nodes, list, locks, sent, Waiters(), list, locks, after, [], 0, sent)
    {
      var none: seq<Addr> := [];
      assert none + list[0..] == list;
      assert WaitersAt(nodes, none) == [];
    }

    lemma EndPass(ws: seq<Waiter>, list0: seq<Addr>, before: Locks, after: Locks, kept: seq<Addr>, said: seq<Reply>)
      requires Valid() && Passing(nodes, list, locks, sent, ws, list0, before, after, kept, |list0|, said) && LocksAfter(ws, before, after)
      ensures locks == after && Waiters() == Left(ws, before, after, |ws|) && sent == said + Replies(ws, before, after, |ws|)
    {
      PassUnique(ws, before, after, locks);
      assert list == kept;
    }

    /** Take the i-th node out of the list. */
    method Unlink(iter: Addr, ghost i: nat)
      requires Valid() && i < |list| && list[i] == iter
      modifies this`nodes, this`head, this`cnt, this`list
      ensures Valid() && list == old(list)[..i] + old(list)[i + 1..]
      ensures nodes.Keys == old(nodes.Keys) && forall a | a in nodes :: nodes[a].waiter == old(nodes)[a].waiter
      ensures nodes[iter] == old(nodes)[iter]
    {
      assert LinkedAt(nodes, list, i);
      if i + 1 < |list| { assert LinkedAt(nodes, list, i + 1); }
      if 0 < i { assert LinkedAt(nodes, list, i - 1); }
      var n := nodes[iter];
      if n.prev != 0 {
        nodes := nodes[n.prev := nodes[n.prev].(next := n.next)];
        if n.next != 0 { nodes := nodes[n.next := nodes[n.next].(prev := n.prev)]; }
      } else {
        head := n.next;
        if head != 0 { nodes := nodes[head := nodes[head].(prev := 0)]; }
      }
      cnt := cnt - 1;
      RemovedLinks(old(nodes), nodes, list, i);
      ghost var shorter := list[..i] + list[i + 1..];
      forall j | 0 <= j < |shorter| ensures Sensible(nodes, shorter, locks, j) {
        assert Sensible(old(nodes), list, locks, if j < i then j else j + 1);
      }
      list := shorter;
    }
  }

  /** Of two requests for a free lock the later one is answered first, and gets it. */
  method NewestFirst(m: GlobalLockManager, a: Waiter, b: Waiter)
    requires m.Valid() && a.lock == b.lock && a.lock in m.locks && 0 < Stamp(a) && 0 < Stamp(b) && m.locks[a.lock] == 0
    modifies m
    ensures m.Valid() && a.lock in m.locks && m.locks[a.lock] == Stamp(b)
    ensures |old(m.sent)| < |m.sent| && m.sent[|old(m.sent)|] == Reply(b.pid, b.cid, Granted)
    ensures a in m.Waiters() <== Stamp(a) < Stamp(b)
  {
    ghost var before := m.locks;
    m.AddToWaitlist(a);
    m.AddToWaitlist(b);
    ghost var ws := m.Waiters();
    assert ws[0] == b && ws[1] == a;
    m.CheckToNotify();
    assert FirstFor(ws, 0, a.lock) && WordAt(ws, |ws|, a.lock, before[a.lock], m.locks[a.lock]);
    ghost var i: nat :| i < |ws| && FirstFor(ws, i, a.lock) && m.locks[a.lock] == Stamp(ws[i]);
    OneFirst(ws, 0, i, a.lock);
    FirstReply(ws, before, m.locks, |ws|);
    if Stays(ws, before, m.locks, 1) { StaysInLeft(ws, before, m.locks, 1, |ws|); }
  }

  lemma AddedLinks(before: map<Addr, ListNode>, after: map<Addr, ListNode>, list: seq<Addr>, a: Addr, w: Waiter)
    requires LinkedList(before, list) && AllIn(before, list) && a !in before && a != 0
    requires after.Keys == before.Keys + {a} && after[a] == ListNode(w, if list == [] then 0 else list[0], 0)
    requires forall x | x in before :: after[x] == if list != [] && x == list[0] then before[x].(prev := a) else before[x]
    ensures LinkedList(after, [a] + list) && AllIn(after, [a] + list)
    ensures WaitersAt(after, [a] + list) == [w] + WaitersAt(before, list)
  {
    var longer := [a] + list;
    forall i | 0 <= i < |longer| ensures LinkedAt(after, longer, i) {
      if 0 < i { assert LinkedAt(before, list, i - 1); }
    }
    forall i, j | 0 <= i < j < |longer| ensures longer[i] != longer[j] {
      assert list[j - 1] in before;
    }
  }

  lemma RemovedLinks(before: map<Addr, ListNode>, after: map<Addr, ListNode>, list: seq<Addr>, i: nat)
    requires LinkedList(before, list) && i < |list| && after.Keys == before.Keys
    requires forall a | a in before ::
               after[a] == if i + 1 < |list| && a == list[i + 1] then before[a].(prev := if 0 < i then list[i - 1] else 0)
                           else if 0 < i && a == list[i - 1] then before[a].(next := if i + 1 < |list| then list[i + 1] else 0)
                           else before[a]
    ensures LinkedList(after, list[..i] + list[i + 1..]) && AllIn(after, list[..i] + list[i + 1..])
  {
    var shorter := list[..i] + list[i + 1..];
    forall j | 0 <= j < |shorter| ensures LinkedAt(after, shorter, j) && shorter[j] in after {
      assert LinkedAt(before, list, if j < i then j else j + 1);
    }
  }
}
