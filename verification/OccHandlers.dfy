/** The server side of the optimistic protocol: handlers that walk a batched message and work on the
    record headers in place, as they run when nothing interferes between their memory accesses. */
module OccHandlers {
  import opened Occ

  /** Entries of a message. Every server gets the whole batch and skips what is not its own. */
  datatype LockItem = LockItem(pid: Node, k: Key, seqno: nat)
  datatype StoreItem = StoreItem(pid: Node, k: Key, val: Value)

  predicate Mine(items: seq<LockItem>, me: Node, k: Key) {
    exists i :: 0 <= i < |items| && items[i].pid == me && items[i].k == k
  }

  /** Every item of this server is free, unchanged, and named only once. */
  ghost predicate Grantable(lock: map<Key, nat>, seqno: map<Key, nat>, items: seq<LockItem>, me: Node)
    requires lock.Keys == seqno.Keys && AllStored(items, me, lock.Keys)
  {
    && (forall i | 0 <= i < |items| && items[i].pid == me :: lock[items[i].k] == 0 && seqno[items[i].k] == items[i].seqno)
    && (forall i, j | 0 <= i < j < |items| && items[i].pid == me && items[j].pid == me :: items[i].k != items[j].k)
  }

  ghost predicate AllStored(items: seq<LockItem>, me: Node, keys: set<Key>) {
    forall i | 0 <= i < |items| && items[i].pid == me :: items[i].k in keys
  }

  /** What lock requests of who may have done to the lock words. */
  ghost predicate Grabbed(before: map<Key, nat>, after: map<Key, nat>, items: seq<LockItem>, me: Node, who: nat) {
    && after.Keys == before.Keys
    && forall k | k in before :: after[k] == before[k] || (before[k] == 0 && after[k] == who && Mine(items, me, k))
  }

  /** The lock words when the first n items have been locked for who. */
  ghost function Taken(before: map<Key, nat>, items: seq<LockItem>, me: Node, who: nat, n: nat): map<Key, nat>
    requires n <= |items|
  {
    map k | k in before :: if Mine(items[..n], me, k) then who else before[k]
  }

  /** Item n is the first to go wrong and cannot be locked, or item n - 1 is and has been locked, but turned out to
      have changed. */
  ghost predicate StopsAt(before: map<Key, nat>, seqno: map<Key, nat>, items: seq<LockItem>, me: Node, who: nat, n: nat)
    requires n <= |items| && before.Keys == seqno.Keys && AllStored(items, me, before.Keys)
  {
    || (n < |items| && Fine(before, seqno, items, me, n)
        && items[n].pid == me && Taken(before, items, me, who, n)[items[n].k] != 0)
    || (0 < n && Fine(before, seqno, items, me, n - 1)
        && items[n - 1].pid == me && Taken(before, items, me, who, n - 1)[items[n - 1].k] == 0
        && seqno[items[n - 1].k] != items[n - 1].seqno)
  }

  /** What release requests of who do to the lock words. */
  ghost function Freed(lock: map<Key, nat>, items: seq<LockItem>, me: Node, who: nat): map<Key, nat> {
    map k | k in lock :: if Mine(items, me, k) && lock[k] == who then 0 else lock[k]
  }

  /** How often k occurs among this server's store items, and the value that is stored last. */
  function Count(items: seq<StoreItem>, me: Node, k: Key): nat {
    if items == [] then 0
    else Count(items[..|items| - 1], me, k) + (if items[|items| - 1].pid == me && items[|items| - 1].k == k then 1 else 0)
  }

  function LastVal(items: seq<StoreItem>, me: Node, k: Key, v: Value): Value {
    if items == [] then v
    else if items[|items| - 1].pid == me && items[|items| - 1].k == k then items[|items| - 1].val
    else LastVal(items[..|items| - 1], me, k, v)
  }

  /** The places of this server's store items for k. */
  ghost function Places(items: seq<StoreItem>, me: Node, k: Key): set<nat> {
    set i: nat | i < |items| && items[i].pid == me && items[i].k == k
  }

  lemma {:induction false} CountIsPlaces(items: seq<StoreItem>, me: Node, k: Key)
    ensures Count(items, me, k) == |Places(items, me, k)|
  {
    if items != [] {
      var n := |items| - 1;
      var before := items[..n];
      CountIsPlaces(before, me, k);
      assert Places(items, me, k) == Places(before, me, k) + (if items[n].pid == me && items[n].k == k then {n} else {});
    } else {
      assert Places(items, me, k) == {};
    }
  }

  lemma {:induction false} LastValIsLast(items: seq<StoreItem>, me: Node, k: Key, v: Value, i: nat)
    requires i < |items| && items[i].pid == me && items[i].k == k
    requires forall j | i < j < |items| :: !(items[j].pid == me && items[j].k == k)
    ensures LastVal(items, me, k, v) == items[i].val
  {
    var n := |items| - 1;
    if i < n { LastValIsLast(items[..n], me, k, v, i); }
  }

  lemma {:induction false} LastValIfNone(items: seq<StoreItem>, me: Node, k: Key, v: Value)
    requires forall j | 0 <= j < |items| :: !(items[j].pid == me && items[j].k == k)
    ensures LastVal(items, me, k, v) == v
  {
    if items != [] { LastValIfNone(items[..|items| - 1], me, k, v); }
  }

  class Server {
    const me: Node
    var lock: map<Key, nat>
    var seqno: map<Key, nat>
    var words: map<Key, Value>

    ghost predicate Valid()
      reads this
    {
      lock.Keys == seqno.Keys == words.Keys
    }

    constructor (me: Node, loaded: map<Key, Value>)
      ensures Valid() && this.me == me && words == loaded
      ensures forall k | k in loaded :: lock[k] == 0 && seqno[k] == 0
    {
      this.me := me;
      words := loaded;
      lock := map k | k in loaded :: 0;
      seqno := map k | k in loaded :: 0;
    }

    /** local_try_lock_op: a look, then a compare-and-swap. */
    method TryLock(k: Key, who: nat) returns (ok: bool)
      requires Valid() && k in lock && who != 0
      modifies this`lock
      ensures ok == (old(lock)[k] == 0)
      ensures lock == if ok then old(lock)[k := who] else old(lock)
    {
      ok := lock[k] == 0;
      if ok { lock := lock[k := who]; }
    }

    /** lock_rpc_handler: it stops at the first record it cannot have, and keeps the earlier ones. n is
        the number of items it has locked or skipped. */
    method LockRpc(items: seq<LockItem>, who: nat) returns (ok: bool, ghost n: nat)
      requires Valid() && AllStored(items, me, lock.Keys) && who != 0
      modifies this`lock
      ensures Valid() && lock.Keys == old(lock.Keys)
      ensures ok == Grantable(old(lock), seqno, items, me)
      ensures n <= |items| && lock == Taken(old(lock), items, me, who, n)
      ensures if ok then n == |items| else StopsAt(old(lock), seqno, items, me, who, n)
      ensures Grabbed(old(lock), lock, items, me, who)
      ensures ok <==> && (forall i | 0 <= i < |items| && items[i].pid == me :: old(lock)[items[i].k] == 0 && seqno[items[i].k] == items[i].seqno)
                      && (forall i, j | 0 <= i < j < |items| && items[i].pid == me && items[j].pid == me :: items[i].k != items[j].k)
      ensures ok ==> forall k | k in lock ::
                lock[k] == if exists i :: 0 <= i < |items| && items[i].pid == me && items[i].k == k then who else old(lock)[k]
    {
      for i := 0 to |items|
        invariant lock.Keys == old(lock.Keys) && lock == Taken(old(lock), items, me, who, i)
        invariant Fine(old(lock), seqno, items, me, i)
      {
        MineGrows(items, me, i);
        if items[i].pid == me {
          var k := items[i].k;
          ok := TryLock(k, who);
          if !ok {
            n := i;
            NotGrantable(old(lock), seqno, items, me, who, i);
            GrabbedIs(old(lock), seqno, items, me, who, i);
            return;
          }
          assert lock == Taken(old(lock), items, me, who, i + 1);
          if seqno[k] != items[i].seqno {
            ok, n := false, i + 1;
            GrabbedIs(old(lock), seqno, items, me, who, i);
            return;
          }
        } else {
          assert lock == Taken(old(lock), items, me, who, i + 1);
        }
        FineGrows(old(lock), seqno, items, me, who, i);
      }
      ok, n := true, |items|;
      GrabbedIs(old(lock), seqno, items, me, who, n);
    }

    /** release_rpc_handler */
    method ReleaseRpc(items: seq<LockItem>, who: nat)
      requires Valid() && AllStored(items, me, lock.Keys) && who != 0
      modifies this`lock
      ensures Valid() && lock == Freed(old(lock), items, me, who)
      ensures forall k | k in lock ::
                lock[k] == if old(lock)[k] == who && exists i :: 0 <= i < |items| && items[i].pid == me && items[i].k == k then 0 else old(lock)[k]
    {
      ReleaseAll(items, who);
    }

    method ReleaseAll(items: seq<LockItem>, who: nat)
      requires Valid() && AllStored(items, me, lock.Keys) && who != 0
      modifies this`lock
      ensures Valid() && lock == Freed(old(lock), items, me, who)
    {
      assert Freed(lock, items[..0], me, who) == lock;
      for n := 0 to |items|
        invariant lock.Keys == old(lock.Keys)
        invariant lock == Freed(old(lock), items[..n], me, who)
      {
        MineGrows(items, me, n);
        if items[n].pid == me && lock[items[n].k] == who { lock := lock[items[n].k := 0]; }
        assert lock == Freed(old(lock), items[..n + 1], me, who);
      }
      assert items[..|items|] == items;
    }

    /** local_validate_op */
    method Validate(k: Key, s: nat) returns (ok: bool)
      requires Valid() && k in lock
      ensures ok == (seqno[k] == s && lock[k] == 0)
    {
      ok := s == seqno[k] && lock[k] == 0;
    }

    method ValidateRpc(items: seq<LockItem>) returns (ok: bool)
      requires Valid() && AllStored(items, me, lock.Keys)
      ensures ok == forall i | 0 <= i < |items| && items[i].pid == me :: seqno[items[i].k] == items[i].seqno && lock[items[i].k] == 0
    {
      for n := 0 to |items|
        invariant forall i | 0 <= i < n && items[i].pid == me :: seqno[items[i].k] == items[i].seqno && lock[items[i].k] == 0
      {
        if items[n].pid != me { continue; }
        ok := Validate(items[n].k, items[n].seqno);
        if !ok { return; }
      }
      return true;
    }

    /** inplace_write_op: flag, value, next sequence number, unlock. */
    method InplaceWrite(k: Key, val: Value)
      requires Valid() && k in words
      modifies this
      ensures Valid() && words == old(words)[k := val]
      ensures seqno == old(seqno)[k := old(seqno)[k] + 2] && lock == old(lock)[k := 0]
    {
      var last := seqno[k];
      seqno := seqno[k := CONFLICT_WRITE_FLAG];
      words := words[k := val];
      seqno := seqno[k := last + 2];
      lock := lock[k := 0];
    }

    /** commit_rpc_handler: each record that an own item names ends with the value of the last one, with
        two added to its sequence number for each, and unlocked; no other record changes. */
    method CommitRpc(items: seq<StoreItem>)
      requires Valid() && forall i | 0 <= i < |items| && items[i].pid == me :: items[i].k in words
      modifies this
      ensures Valid() && words.Keys == old(words.Keys)
      ensures forall i | 0 <= i < |items| && items[i].pid == me
                         && (forall j | i < j < |items| && items[j].pid == me :: items[j].k != items[i].k) :: words[items[i].k] == items[i].val
      ensures forall k | k in words && (forall i | 0 <= i < |items| && items[i].pid == me :: items[i].k != k) ::
                words[k] == old(words)[k] && seqno[k] == old(seqno)[k] && lock[k] == old(lock)[k]
      ensures forall k | k in words :: seqno[k] == old(seqno)[k] + 2 * |set i: nat | i < |items| && items[i].pid == me && items[i].k == k|
      ensures forall i | 0 <= i < |items| && items[i].pid == me :: lock[items[i].k] == 0
    {
      StoreAll(items);
      forall k | k in words ensures Settled(items, me, k, old(words)[k], old(seqno)[k], old(lock)[k], words[k], seqno[k], lock[k]) {
        StoredMeans(items, me, k, old(words)[k], old(seqno)[k], old(lock)[k], words[k], seqno[k], lock[k]);
      }
      forall i | 0 <= i < |items| && items[i].pid == me
                 && (forall j | i < j < |items| && items[j].pid == me :: items[j].k != items[i].k)
        ensures words[items[i].k] == items[i].val
      {
        var k := items[i].k;
        assert Settled(items, me, k, old(words)[k], old(seqno)[k], old(lock)[k], words[k], seqno[k], lock[k]);
      }
    }

    method StoreAll(items: seq<StoreItem>)
      requires Valid() && forall i | 0 <= i < |items| && items[i].pid == me :: items[i].k in words
      modifies this
      ensures Valid() && words.Keys == old(words.Keys)
      ensures forall k | k in words :: StoredAt(items, me, k, old(words)[k], old(seqno)[k], old(lock)[k], words[k], seqno[k], lock[k])
    {
      for n := 0 to |items|
        invariant Valid() && words.Keys == old(words.Keys)
        invariant forall k | k in words :: StoredAt(items[..n], me, k, old(words)[k], old(seqno)[k], old(lock)[k], words[k], seqno[k], lock[k])
      {
        assert items[..n + 1][..n] == items[..n] && items[..n + 1][n] == items[n];
        if items[n].pid == me { InplaceWrite(items[n].k, items[n].val); }
      }
      assert items[..|items|] == items;
    }
  }

  /** What the items do to record k: the value stored last, two up per store, and unlocked by any. */
  ghost predicate StoredAt(items: seq<StoreItem>, me: Node, k: Key, v: Value, s: nat, l: nat, v': Value, s': nat, l': nat) {
    v' == LastVal(items, me, k, v) && s' == s + 2 * Count(items, me, k) && l' == if Count(items, me, k) == 0 then l else 0
  }

  /** The same, without a recursion: the last value, the number of stores, and unlocked by any. */
  ghost predicate Settled(items: seq<StoreItem>, me: Node, k: Key, v: Value, s: nat, l: nat, v': Value, s': nat, l': nat) {
    && (forall i | 0 <= i < |items| && items[i].pid == me && items[i].k == k
                   && (forall j | i < j < |items| && items[j].pid == me :: items[j].k != k) :: v' == items[i].val)
    && ((forall i | 0 <= i < |items| && items[i].pid == me :: items[i].k != k) ==> v' == v && s' == s && l' == l)
    && s' == s + 2 * |set i: nat | i < |items| && items[i].pid == me && items[i].k == k|
    && (forall i | 0 <= i < |items| && items[i].pid == me && items[i].k == k :: l' == 0)
  }

  lemma StoredMeans(items: seq<StoreItem>, me: Node, k: Key, v: Value, s: nat, l: nat, v': Value, s': nat, l': nat)
    requires StoredAt(items, me, k, v, s, l, v', s', l')
    ensures Settled(items, me, k, v, s, l, v', s', l')
  {
    CountIsPlaces(items, me, k);
    assert Places(items, me, k) == set i: nat | i < |items| && items[i].pid == me && items[i].k == k;
    forall i | 0 <= i < |items| && items[i].pid == me && items[i].k == k
               && (forall j | i < j < |items| && items[j].pid == me :: items[j].k != k)
      ensures v' == items[i].val
    {
      LastValIsLast(items, me, k, v, i);
    }
    if forall i | 0 <= i < |items| && items[i].pid == me :: items[i].k != k {
      LastValIfNone(items, me, k, v);
      assert Places(items, me, k) == {};
    } else {
      var i :| 0 <= i < |items| && items[i].pid == me && items[i].k == k;
      assert i in Places(items, me, k);
    }
  }

  lemma MineGrows(items: seq<LockItem>, me: Node, n: nat)
    requires n < |items|
    ensures forall k :: Mine(items[..n + 1], me, k) <==> Mine(items[..n], me, k) || (items[n].pid == me && items[n].k == k)
  {
    var p, q := items[..n], items[..n + 1];
    forall k | Mine(p, me, k) ensures Mine(q, me, k) {
      var i :| 0 <= i < |p| && p[i].pid == me && p[i].k == k;
      assert q[i] == p[i];
    }
    assert q[n] == items[n] && forall i | 0 <= i < n :: q[i] == p[i];
  }

  lemma MineWhole(items: seq<LockItem>, me: Node, n: nat)
    requires n <= |items|
    ensures forall k :: Mine(items[..n], me, k) ==> Mine(items, me, k)
  {
    forall k | Mine(items[..n], me, k) ensures Mine(items, me, k) {
      var i :| 0 <= i < n && items[..n][i].pid == me && items[..n][i].k == k;
      assert items[i].pid == me && items[i].k == k;
    }
  }

  /** The first n items were free, unchanged and named once. */
  ghost predicate Fine(before: map<Key, nat>, seqno: map<Key, nat>, items: seq<LockItem>, me: Node, n: nat)
    requires n <= |items| && before.Keys == seqno.Keys && AllStored(items, me, before.Keys)
  {
    && (forall i | 0 <= i < n && items[i].pid == me :: before[items[i].k] == 0 && seqno[items[i].k] == items[i].seqno)
    && (forall i, j | 0 <= i < j < n && items[i].pid == me && items[j].pid == me :: items[i].k != items[j].k)
  }

  lemma MineBefore(items: seq<LockItem>, me: Node, n: nat, k: Key)
    requires n <= |items|
    ensures Mine(items[..n], me, k) <==> exists i :: 0 <= i < n && items[i].pid == me && items[i].k == k
  {
    if i :| 0 <= i < n && items[i].pid == me && items[i].k == k { assert items[..n][i] == items[i]; }
    if i :| 0 <= i < n && items[..n][i].pid == me && items[..n][i].k == k { assert items[i].k == k; }
  }

  lemma FineGrows(before: map<Key, nat>, seqno: map<Key, nat>, items: seq<LockItem>, me: Node, who: nat, n: nat)
    requires n < |items| && before.Keys == seqno.Keys && AllStored(items, me, before.Keys) && Fine(before, seqno, items, me, n) && who != 0
    requires items[n].pid == me ==> seqno[items[n].k] == items[n].seqno && Taken(before, items, me, who, n)[items[n].k] == 0
    ensures Fine(before, seqno, items, me, n + 1)
  {
    MineBefore(items, me, n, items[n].k);
  }

  /** A record the batch cannot have was locked before the batch, or is named twice in it. */
  lemma NotGrantable(before: map<Key, nat>, seqno: map<Key, nat>, items: seq<LockItem>, me: Node, who: nat, n: nat)
    requires n < |items| && before.Keys == seqno.Keys && AllStored(items, me, before.Keys)
    requires items[n].pid == me && Taken(before, items, me, who, n)[items[n].k] != 0
    ensures !Grantable(before, seqno, items, me)
  {
    MineBefore(items, me, n, items[n].k);
  }

  /** What has been taken was free before and belongs to the batch. */
  lemma GrabbedIs(before: map<Key, nat>, seqno: map<Key, nat>, items: seq<LockItem>, me: Node, who: nat, n: nat)
    requires n <= |items| && before.Keys == seqno.Keys && AllStored(items, me, before.Keys) && Fine(before, seqno, items, me, n) && who != 0
    ensures Grabbed(before, Taken(before, items, me, who, n), items, me, who)
    ensures n < |items| && items[n].pid == me && Taken(before, items, me, who, n)[items[n].k] == 0 ==>
              Grabbed(before, Taken(before, items, me, who, n + 1), items, me, who)
  {
    MineWhole(items, me, n);
    forall k ensures Mine(items[..n], me, k) && k in before ==> before[k] == 0 { MineBefore(items, me, n, k); }
    if n < |items| {
      MineWhole(items, me, n + 1);
      MineGrows(items, me, n);
    }
  }

  /** A requester that holds nothing here and releases the batch it tried to lock leaves every lock
      word as it was, whether the batch was granted, refused halfway, or refused at once. */
  lemma ReleaseUndoesLock(before: map<Key, nat>, after: map<Key, nat>, items: seq<LockItem>, me: Node, who: nat)
    requires Grabbed(before, after, items, me, who)
    ensures Freed(after, items, me, who) == before <==> forall k | k in before && Mine(items, me, k) :: before[k] != who || who == 0
  {
    if k :| k in before && Mine(items, me, k) && before[k] == who && who != 0 {
      assert Freed(after, items, me, who)[k] == 0;
    }
  }
}
