/** The record header of the multiversion protocol and the server-side handlers that work on it,
    as they run when nothing interferes between their memory accesses. */
module MvccHandlers {
  import opened Mvcc

  datatype ReadReply = ReadFail | ReadOk(pos: nat, val: Value)

  /** LOCK_FAIL_MAGIC, LOCK_UPDATE_TS_MAGIC with a counter, or LOCK_SUCCESS_MAGIC with slot and data. */
  datatype LockReply = LockFail | UpdateTs(count: nat) | LockOk(pos: nat, val: Value)

  class Header {
    var lock: nat
    var rts: nat
    const wts: array<nat>
    const data: array<Value>

    ghost predicate Valid()
      reads this, wts
    {
      && wts.Length == VERSION_NUM && data.Length == VERSION_NUM
      && forall i | 0 <= i < VERSION_NUM :: wts[i] < 0xffff_ffff_ffff_ffff
    }

    ghost function View(): Record
      reads this, wts, data
    {
      Record(lock, rts, wts[..], data[..])
    }

    constructor (v: Value, junk: Value)
      requires |junk| == |v|
      ensures Valid() && fresh(wts) && fresh(data) && InitRecord(View(), v)
    {
      lock, rts := 0, 0;
      wts := new nat[VERSION_NUM](i => if i == 0 then INIT_WTS else 0);
      data := new Value[VERSION_NUM](i => if i == 0 then v else junk);
      new;
      assert wts[..] == [INIT_WTS, 0, 0, 0];
    }

    method CheckReadAt(t: nat) returns (pos: int)
      requires Valid()
      ensures pos == CheckRead(View(), t)
      ensures pos < 0 <==> 0 < lock < t || forall i | 0 <= i < VERSION_NUM :: wts[i] == 0 || t <= wts[i]
      ensures 0 <= pos ==> pos < VERSION_NUM && 0 < wts[pos] < t && forall i | 0 <= i < VERSION_NUM && wts[i] < t :: wts[i] <= wts[pos]
    {
      if lock != 0 && lock < t { return -1; }
      var maxWts := 0;
      pos := -2;
      for i := 0 to VERSION_NUM
        invariant pos == LatestBelow(wts[..i], t) && maxWts == (if pos < 0 then 0 else wts[pos])
      {
        assert wts[..i + 1][..i] == wts[..i];
        if wts[i] < t && wts[i] > maxWts {
          maxWts := wts[i];
          pos := i;
        }
      }
      assert wts[..VERSION_NUM] == wts[..];
    }

    method CheckWriteAt(t: nat) returns (blocker: nat)
      requires Valid()
      ensures blocker == CheckWrite(View(), t)
      ensures blocker == 0 <==> rts <= t && forall i | 0 <= i < VERSION_NUM :: wts[i] <= t
      ensures blocker != 0 ==> rts <= blocker && (forall i | 0 <= i < VERSION_NUM :: wts[i] <= blocker)
                               && (blocker == rts || exists i :: 0 <= i < VERSION_NUM && wts[i] == blocker)
    {
      blocker := 0;
      if rts > t { blocker := rts; }
      for i := 0 to VERSION_NUM
        invariant blocker == (var top := Max(rts, MaxWts(wts[..i])); if top > t then top else 0)
      {
        assert wts[..i + 1][..i] == wts[..i];
        if wts[i] > t && wts[i] > blocker { blocker := wts[i]; }
      }
      assert wts[..VERSION_NUM] == wts[..];
    }

    /** The oldest slot, to be overwritten, and the newest one, to be read. */
    method ScanSlots() returns (pos: int, maxPos: int, maxWts: nat)
      requires Valid()
      ensures pos == MinSlot(wts[..]) && 0 <= pos && maxPos == MaxSlot(wts[..]) && maxWts == MaxWts(wts[..])
    {
      maxWts, pos, maxPos := 0, -1, -1;
      var minWts: nat := 0xffff_ffff_ffff_ffff;
      for i := 0 to VERSION_NUM
        invariant pos == MinSlot(wts[..i]) && minWts == (if pos < 0 then 0xffff_ffff_ffff_ffff else wts[pos])
        invariant maxPos == MaxSlot(wts[..i]) && maxWts == MaxWts(wts[..i])
      {
        assert wts[..i + 1][..i] == wts[..i];
        if wts[i] > maxWts { maxWts, maxPos := wts[i], i; }
        if wts[i] < minWts { minWts, pos := wts[i], i; }
      }
      assert wts[..VERSION_NUM] == wts[..];
    }

    method BumpRts(t: nat)
      modifies this`rts
      ensures View() == old(View()).(rts := if old(rts) < t then t else old(rts))
    {
      if t > rts { rts := t; }
    }

    /** Undisturbed, a read is refused exactly when an earlier writer holds the record or there is no
        earlier version; otherwise it returns the latest of these and leaves only a larger rts. */
    method ReadRpc(t: nat) returns (reply: ReadReply)
      requires Valid()
      modifies this`rts
      ensures reply == ReadFail <==> 0 < lock < t || forall i | 0 <= i < VERSION_NUM :: wts[i] == 0 || t <= wts[i]
      ensures reply.ReadOk? ==>
                && reply.pos < VERSION_NUM && 0 < wts[reply.pos] < t && reply.val == data[reply.pos]
                && forall i | 0 <= i < VERSION_NUM && wts[i] < t :: wts[i] <= wts[reply.pos]
      ensures View() == if reply == ReadFail || t <= old(rts) then old(View()) else old(View()).(rts := t)
    {
      var pos := CheckReadAt(t);
      if pos < 0 { return ReadFail; }
      BumpRts(t);
      var before := wts[pos];
      var buf := data[pos];
      var again := CheckReadAt(t);
      assert again == CheckRead(View(), t) == pos;
      if again != pos || wts[again] != before { return ReadFail; }
      reply := ReadOk(pos, buf);
    }

    /** The part of lock_read_rpc_handler up to its compare-and-swap. It takes the lock exactly when
        the lock is free and no later timestamp was read or written; LockOk here only means that the
        swap succeeded. A reported counter makes its receiver's next timestamp larger than the blocker. */
    method TryLock(t: nat) returns (reply: LockReply)
      requires Valid() && 0 < t
      modifies this`lock
      ensures reply.LockOk? <==> old(lock) == 0 && rts <= t && forall i | 0 <= i < VERSION_NUM :: wts[i] <= t
      ensures View() == if reply.LockOk? then old(View()).(lock := t) else old(View())
      ensures reply.UpdateTs? <==> t < rts || t < old(lock) || exists i :: 0 <= i < VERSION_NUM && t < wts[i]
      ensures reply.UpdateTs? ==>
                forall c | ValidCor(c) ::
                  var next := Timestamp(reply.count + 1, c);
                  if t < rts || exists i :: 0 <= i < VERSION_NUM && t < wts[i] then rts < next && forall i | 0 <= i < VERSION_NUM :: wts[i] < next
                  else old(lock) < next
      ensures reply.UpdateTs? ==> reply.count in {rts / 1024, old(lock) / 1024} || exists i :: 0 <= i < VERSION_NUM && reply.count == wts[i] / 1024
    {
      var blocker := CheckWriteAt(t);
      if blocker != 0 { return UpdateTs(blocker / 1024); }
      if lock > t { return UpdateTs(lock / 1024); }
      if lock != 0 { return LockFail; }
      lock := t;
      reply := LockOk(0, []);
    }

    /** The rest of it, after whatever readers did in between: grant with the oldest slot and the newest
        data exactly when no later timestamp has appeared, and otherwise unlock and report one. */
    method FinishLock(t: nat) returns (reply: LockReply)
      requires Valid() && lock == t && exists i | 0 <= i < VERSION_NUM :: wts[i] != 0
      modifies this`lock
      ensures reply.LockOk? <==> rts <= t && forall i | 0 <= i < VERSION_NUM :: wts[i] <= t
      ensures reply.LockOk? ==>
                && View() == old(View()) && reply.pos < VERSION_NUM && (forall i | 0 <= i < VERSION_NUM :: wts[reply.pos] <= wts[i])
                && exists m :: 0 <= m < VERSION_NUM && reply.val == data[m] && forall i | 0 <= i < VERSION_NUM :: wts[i] <= wts[m]
      ensures !reply.LockOk? ==>
                && View() == old(View()).(lock := 0) && reply.UpdateTs?
                && forall c | ValidCor(c) ::
                     var next := Timestamp(reply.count + 1, c);
                     t < next && if t < rts then rts < next else forall i | 0 <= i < VERSION_NUM :: wts[i] < next
      ensures reply.UpdateTs? ==> reply.count == rts / 1024 || exists i :: 0 <= i < VERSION_NUM && reply.count == wts[i] / 1024
    {
      var i :| 0 <= i < VERSION_NUM && wts[i] != 0;
      assert wts[..][i] != 0;
      if rts > t {
        lock := 0;
        return UpdateTs(rts / 1024);
      }
      var pos, maxPos, maxWts := ScanSlots();
      if maxWts > t {
        lock := 0;
        return UpdateTs(maxWts / 1024);
      }
      reply := LockOk(pos, data[maxPos]);
    }

    /** The new version replaces slot pos, and the record is free. */
    method UpdateRpc(t: nat, pos: nat, val: Value)
      requires Valid() && lock == t && pos < VERSION_NUM && t < 0xffff_ffff_ffff_ffff
      modifies this`lock, wts, data
      ensures Valid()
      ensures View() == Record(0, old(rts), old(wts[..])[pos := t], old(data[..])[pos := val])
    {
      wts[pos] := t;
      data[pos] := val;
      lock := 0;
    }

    method ReleaseRpc(t: nat)
      requires lock == t
      modifies this`lock
      ensures View() == old(View()).(lock := 0)
    {
      lock := 0;
    }
  }

  /** An install in the slot picked when the lock was granted evicts the smallest timestamp only. */
  lemma UpdateKeepsNewest(rec: Record, t: nat)
    requires |rec.wts| == VERSION_NUM && forall i | 0 <= i < VERSION_NUM :: rec.wts[i] < t
    ensures var pos := MinSlot(rec.wts);
            && 0 <= pos < VERSION_NUM
            && MaxWts(rec.wts[pos := t]) == t && LatestBelow(rec.wts[pos := t], t + 1) == pos
            && forall i | 0 <= i < VERSION_NUM && i != pos :: rec.wts[i] in rec.wts[pos := t] && rec.wts[pos] <= rec.wts[i]
  {
    var pos := MinSlot(rec.wts);
    var after := rec.wts[pos := t];
    assert after[pos] == t;
    forall i | 0 <= i < VERSION_NUM && i != pos ensures rec.wts[i] in after { assert after[i] == rec.wts[i]; }
  }
}
