/** The timestamp word of the lease protocol, and the handlers that work on it in place, as they run
    when nothing interferes between their memory accesses.

    Write time and lease share one 64-bit word, 32 bits each; reading them back masks off the top bit
    of each half. */
module SundialHandlers {
  import opened Sundial

  const HALF: nat := 0x1_0000_0000
  const MASK: nat := 0x8000_0000

  /** The value stored for the pair: two 32-bit counters. */
  function Pack(wts: nat, rts: nat): nat {
    wts * HALF + rts
  }

  function Wts(word: nat): nat {
    word / HALF % MASK
  }

  function Rts(word: nat): nat {
    word % MASK
  }

  /** word & 0xffffffff00000000 */
  function UpperHalf(word: nat): nat {
    word - word % HALF
  }

  /** Two 32-bit counters come back out of the word exactly if both are below 2^31. */
  lemma PackRoundTrip(wts: nat, rts: nat)
    requires wts < HALF && rts < HALF
    ensures (Wts(Pack(wts, rts)) == wts && Rts(Pack(wts, rts)) == rts) <==> (wts < MASK && rts < MASK)
  {
    assert Pack(wts, rts) / HALF == wts;
    assert Pack(wts, rts) == (2 * wts) * MASK + rts;
    assert Rts(Pack(wts, rts)) == rts % MASK by { DropMultiple(2 * wts, rts); }
  }

  lemma DropMultiple(a: nat, b: nat)
    ensures (a * MASK + b) % MASK == b % MASK
  {
  }

  /** A word that both counters can be read back from. */
  predicate WellPacked(word: nat) {
    word == Pack(Wts(word), Rts(word))
  }

  /** Storing a new lease keeps the write time; the lease can be read back exactly if it is below 2^31. */
  lemma NewLease(word: nat, commit: nat)
    requires WellPacked(word) && commit < HALF
    ensures UpperHalf(word) + commit == Pack(Wts(word), commit) && Wts(UpperHalf(word) + commit) == Wts(word)
    ensures Rts(UpperHalf(word) + commit) == commit <==> commit < MASK
    ensures commit < MASK ==> WellPacked(UpperHalf(word) + commit)
  {
    var w, r := Wts(word), Rts(word);
    assert word == w * HALF + r && r < HALF;
    assert word % HALF == r;
    assert Pack(w, commit) / HALF == w;
    PackRoundTrip(w, commit);
  }

  /** An entry of a renewal message. */
  datatype LeaseItem = LeaseItem(pid: nat, k: Key, wts: nat)

  function Mine(items: seq<LeaseItem>, me: nat): seq<LeaseItem> {
    if items == [] then []
    else
      var last := items[|items| - 1];
      Mine(items[..|items| - 1], me) + (if last.pid == me then [last] else [])
  }

  /** What renewing item up to commit finds: the version that was read, and no need to wait. */
  predicate Renewable(lock: nat, word: nat, wts: nat, commit: nat) {
    Wts(word) == wts && (commit <= Rts(word) || lock == 0)
  }

  /** Some item asks this server to renew the lease of k, and may. */
  ghost predicate Renews(items: seq<LeaseItem>, me: nat, lock: map<Key, nat>, word: map<Key, nat>, k: Key, commit: nat) {
    exists i :: 0 <= i < |items| && items[i].pid == me && items[i].k == k
      && k in lock && k in word && Renewable(lock[k], word[k], items[i].wts, commit)
  }

  /** One reply per item of this server, in order, as the words were at the start. */
  ghost predicate Answers(items: seq<LeaseItem>, me: nat, lock: map<Key, nat>, word: map<Key, nat>, commit: nat, replies: seq<bool>) {
    && |replies| == |Mine(items, me)|
    && forall i | 0 <= i < |replies| ::
         var item := Mine(items, me)[i];
         item.k in lock && item.k in word && replies[i] == Renewable(lock[item.k], word[item.k], item.wts, commit)
  }

  /** The leases that may be renewed are, and nothing else changes. */
  ghost predicate Extended(items: seq<LeaseItem>, me: nat, lock: map<Key, nat>, before: map<Key, nat>, after: map<Key, nat>, commit: nat) {
    && after.Keys == before.Keys
    && forall k | k in before ::
         && Wts(after[k]) == Wts(before[k])
         && Rts(after[k]) == if Renews(items, me, lock, before, k, commit) then Max(Rts(before[k]), commit) else Rts(before[k])
  }

  lemma ItemGrows(items: seq<LeaseItem>, me: nat, lock: map<Key, nat>, word: map<Key, nat>, commit: nat, n: nat)
    requires n < |items|
    ensures Mine(items[..n + 1], me) == Mine(items[..n], me) + (if items[n].pid == me then [items[n]] else [])
    ensures forall k :: Renews(items[..n + 1], me, lock, word, k, commit) <==>
                        Renews(items[..n], me, lock, word, k, commit)
                        || (items[n].pid == me && items[n].k == k && k in lock && k in word && Renewable(lock[k], word[k], items[n].wts, commit))
  {
    var p, q := items[..n], items[..n + 1];
    assert q[..n] == p && q[n] == items[n];
    forall k | Renews(p, me, lock, word, k, commit) ensures Renews(q, me, lock, word, k, commit) {
      var i :| 0 <= i < |p| && p[i].pid == me && p[i].k == k && k in lock && k in word && Renewable(lock[k], word[k], p[i].wts, commit);
      assert q[i] == p[i];
    }
  }

  /** Handling item n of this server. */
  lemma OneMore(items: seq<LeaseItem>, me: nat, lock: map<Key, nat>, start: map<Key, nat>, before: map<Key, nat>, after: map<Key, nat>,
                commit: nat, replies: seq<bool>, ok: bool, n: nat)
    requires n < |items| && items[n].pid == me && items[n].k in before && items[n].k in after && before.Keys == lock.Keys
    requires Answers(items[..n], me, lock, start, commit, replies) && Extended(items[..n], me, lock, start, before, commit)
    requires var k := items[n].k;
             && after == before[k := after[k]] && Wts(after[k]) == Wts(before[k])
             && ok == Renewable(lock[k], before[k], items[n].wts, commit)
             && Rts(after[k]) == if ok then Max(Rts(before[k]), commit) else Rts(before[k])
    ensures Answers(items[..n + 1], me, lock, start, commit, replies + [ok])
    ensures Extended(items[..n + 1], me, lock, start, after, commit)
  {
    ItemGrows(items, me, lock, start, commit, n);
  }

  /** How many of the first n items are this server's. */
  ghost function Before(items: seq<LeaseItem>, me: nat, n: nat): nat
    requires n <= |items|
  {
    |set i: nat | i < n && items[i].pid == me|
  }

  lemma BeforePrefix(items: seq<LeaseItem>, me: nat, n: nat, m: nat)
    requires m <= n <= |items|
    ensures Before(items[..n], me, m) == Before(items, me, m)
  {
    assert (set i: nat | i < m && items[..n][i].pid == me) == set i: nat | i < m && items[i].pid == me;
  }

  lemma BeforeNext(items: seq<LeaseItem>, me: nat, n: nat)
    requires n < |items|
    ensures Before(items, me, n + 1) == Before(items, me, n) + (if items[n].pid == me then 1 else 0)
  {
    var before := set i: nat | i < n && items[i].pid == me;
    assert (set i: nat | i < n + 1 && items[i].pid == me) == before + (if items[n].pid == me then {n} else {});
  }

  lemma {:induction false} MineCount(items: seq<LeaseItem>, me: nat)
    ensures |Mine(items, me)| == Before(items, me, |items|)
  {
    if items != [] {
      var n := |items| - 1;
      MineCount(items[..n], me);
      BeforePrefix(items, me, n, n);
      BeforeNext(items, me, n);
    }
  }

  /** The replies come in the order of this server's items. */
  lemma {:induction false} MineInOrder(items: seq<LeaseItem>, me: nat, i: nat)
    requires i < |items| && items[i].pid == me
    ensures Before(items, me, i) < |Mine(items, me)| && Mine(items, me)[Before(items, me, i)] == items[i]
  {
    var n := |items| - 1;
    MineCount(items[..n], me);
    BeforePrefix(items, me, n, n);
    if i < n {
      MineInOrder(items[..n], me, i);
      BeforePrefix(items, me, n, i);
    }
  }

  /** What the answers and the new words of a batch are, item by item. */
  lemma BatchMeans(items: seq<LeaseItem>, me: nat, lock: map<Key, nat>, before: map<Key, nat>, after: map<Key, nat>, commit: nat, replies: seq<bool>)
    requires Answers(items, me, lock, before, commit, replies) && Extended(items, me, lock, before, after, commit)
    requires lock.Keys == before.Keys && forall i | 0 <= i < |items| && items[i].pid == me :: items[i].k in before
    ensures |replies| == |set i: nat | i < |items| && items[i].pid == me|
    ensures forall i | 0 <= i < |items| && items[i].pid == me ::
              var r := |set j: nat | j < i && items[j].pid == me|;
              r < |replies| && (replies[r] <==> Wts(before[items[i].k]) == items[i].wts && (commit <= Rts(before[items[i].k]) || lock[items[i].k] == 0))
    ensures forall k | k in before ::
              && Wts(after[k]) == Wts(before[k])
              && Rts(after[k]) == if Rts(before[k]) < commit && lock[k] == 0
                                     && exists i :: 0 <= i < |items| && items[i].pid == me && items[i].k == k && items[i].wts == Wts(before[k])
                                  then commit else Rts(before[k])
  {
    MineCount(items, me);
    forall i | 0 <= i < |items| && items[i].pid == me
      ensures var r := |set j: nat | j < i && items[j].pid == me|;
              r < |replies| && (replies[r] <==> Wts(before[items[i].k]) == items[i].wts && (commit <= Rts(before[items[i].k]) || lock[items[i].k] == 0))
    {
      MineInOrder(items, me, i);
    }
    assert Before(items, me, |items|) == |set i: nat | i < |items| && items[i].pid == me|;
  }

  class Server {
    const me: nat
    var lock: map<Key, nat>
    var word: map<Key, nat>
    var val: map<Key, Value>

    ghost predicate Valid()
      reads this
    {
      lock.Keys == word.Keys == val.Keys && forall k | k in word :: WellPacked(word[k])
    }

    constructor (me: nat, loaded: map<Key, Value>)
      ensures Valid() && this.me == me && val == loaded && forall k | k in loaded :: lock[k] == 0 && word[k] == Pack(0, 0)
    {
      this.me := me;
      val := loaded;
      lock := map k | k in loaded :: 0;
      word := map k | k in loaded :: 0;
    }

    /** renew_lease_local: it succeeds exactly if the version is the one that was read and the lease is long
        enough or the record unlocked. The lease is never shortened, that of a locked record never
        changed, and the write time never touched. */
    method RenewLocal(k: Key, wts: nat, commit: nat) returns (ok: bool)
      requires Valid() && k in word && commit < MASK
      modifies this`word
      ensures Valid() && k in word && ok == Renewable(lock[k], old(word)[k], wts, commit)
      ensures word == old(word)[k := word[k]] && Wts(word[k]) == Wts(old(word)[k])
      ensures Rts(word[k]) == if ok then Max(Rts(old(word)[k]), commit) else Rts(old(word)[k])
      ensures ok <==> Wts(old(word)[k]) == wts && (commit <= Rts(old(word)[k]) || lock[k] == 0)
      ensures lock[k] != 0 || !ok || commit <= Rts(old(word)[k]) ==> word == old(word)
      ensures ok && Rts(old(word)[k]) < commit ==> Rts(word[k]) == commit
    {
      var l := lock[k];
      var tss := word[k];
      if wts != Wts(tss) || (commit > Rts(tss) && l != 0) { return false; }
      NewLease(tss, commit);
      if Rts(tss) < commit { word := word[k := UpperHalf(tss) + commit]; }
      return true;
    }

    /** renew_lease_rpc_handler: one reply for every item, whatever becomes of the others. Since all
        items ask for the same commit time, each reply is what the item alone would have got. */
    method RenewRpc(items: seq<LeaseItem>, commit: nat) returns (replies: seq<bool>)
      requires Valid() && commit < MASK && forall i | 0 <= i < |items| && items[i].pid == me :: items[i].k in word
      modifies this`word
      ensures Valid() && word.Keys == old(word.Keys) && |replies| == |set i: nat | i < |items| && items[i].pid == me|
      ensures forall i | 0 <= i < |items| && items[i].pid == me ::
                var w, l, r := old(word)[items[i].k], lock[items[i].k], |set j: nat | j < i && items[j].pid == me|;
                r < |replies| && (replies[r] <==> Wts(w) == items[i].wts && (commit <= Rts(w) || l == 0))
      ensures forall k | k in word ::
                && Wts(word[k]) == Wts(old(word)[k])
                && Rts(word[k]) == if Rts(old(word)[k]) < commit && lock[k] == 0
                                      && exists i :: 0 <= i < |items| && items[i].pid == me && items[i].k == k && items[i].wts == Wts(old(word)[k])
                                   then commit else Rts(old(word)[k])
    {
      replies := RenewAll(items, commit);
      BatchMeans(items, me, lock, old(word), word, commit, replies);
    }

    method RenewAll(items: seq<LeaseItem>, commit: nat) returns (replies: seq<bool>)
      requires Valid() && commit < MASK && forall i | 0 <= i < |items| && items[i].pid == me :: items[i].k in word
      modifies this`word
      ensures Valid() && Answers(items, me, lock, old(word), commit, replies) && Extended(items, me, lock, old(word), word, commit)
    {
      replies := [];
      for n := 0 to |items|
        invariant Valid() && Answers(items[..n], me, lock, old(word), commit, replies)
        invariant Extended(items[..n], me, lock, old(word), word, commit)
      {
        if items[n].pid == me {
          ghost var before, said := word, replies;
          var ok := RenewLocal(items[n].k, items[n].wts, commit);
          replies := replies + [ok];
          OneMore(items, me, lock, old(word), before, word, commit, said, ok, n);
        } else {
          ItemGrows(items, me, lock, old(word), commit, n);
        }
      }
      assert items[..|items|] == items;
    }

    /** try_update_rdma at the record: timestamps and value, then the lock. */
    method Install(k: Key, v: Value, commit: nat)
      requires Valid() && k in word && commit < MASK
      modifies this
      ensures Valid() && word.Keys == old(word.Keys) && Wts(word[k]) == Rts(word[k]) == commit
      ensures (forall j | j in word && j != k :: word[j] == old(word)[j])
      ensures val == old(val)[k := v] && lock == old(lock)[k := 0]
    {
      PackRoundTrip(commit, commit);
      word := word[k := Pack(commit, commit)];
      val := val[k := v];
      lock := lock[k := 0];
    }
  }

  /** The handler does what the protocol's steps do when nothing comes between them: where the lock word
      has just been loaded, it refuses, keeps or extends the lease exactly where they do. */
  lemma RenewalAgrees(s: State, id: nat, i: nat, word: nat)
    requires Item(s, id, Renewing, i) && s.txns[id].rset[i].renewal == LockLoaded(s.recs[s.txns[id].rset[i].k].lock)
    requires var rec := s.recs[s.txns[id].rset[i].k]; Wts(word) == rec.wts && Rts(word) == rec.rts
    ensures var item, commit := s.txns[id].rset[i], s.txns[id].commit;
            var ok := Renewable(s.recs[item.k].lock, word, item.wts, commit);
            && ((exists s' :: RenewFail(s, s', id, i)) <==> !ok)
            && ((exists s' :: RenewKeep(s, s', id, i)) <==> ok && commit <= Rts(word))
            && ((exists s' :: RenewPass(s, s', id, i)) <==> ok && Rts(word) < commit)
    ensures forall s', s'' | RenewPass(s, s', id, i) && RenewStore(s', s'', id, i) ::
              var k := s.txns[id].rset[i].k; k in s''.recs && s''.recs[k] == s.recs[k].(rts := s.txns[id].commit)
  {
    var t := s.txns[id];
    var item := t.rset[i];
    if s.recs[item.k].wts != item.wts || (s.recs[item.k].rts < t.commit && item.renewal.lock != 0) {
      assert RenewFail(s, PutTxn(s, id, SetItem(t, i, item.(renewal := Failed))), id, i);
    } else if t.commit <= s.recs[item.k].rts {
      assert RenewKeep(s, PutTxn(s, id, SetItem(t, i, item.(renewal := Idle, lease := t.commit))), id, i);
    } else {
      assert RenewPass(s, PutTxn(s, id, SetItem(t, i, item.(renewal := Storing))), id, i);
    }
  }
}
