/** The ring buffer through which one thread's log entries reach a backup.

    The producer reserves room for an entry, writes it, and acknowledges it by writing its last word.
    The consumer polls the place where the next entry must start, zeroes what it has processed, and now
    and then tells the producer how far it has come. An entry is never broken in two: it may run on
    into the padding behind the ring. */
module LogRing {

  const META: nat := 8 * 32
  const PADDING: nat := 32 * 1024
  const BUF: nat := 16 * 1024 * 1024 - META - PADDING
  const HOLE: nat := 1024
  const THRESHOLD: nat := BUF / 8
  const WORD: nat := 8

  /** An entry with its place; its last word is the acknowledgement. */
  datatype Entry = Entry(start: nat, size: nat, written: bool, acked: bool)

  /** remain and off are the producer's, tail and head the consumer's, and header is the word by which
      the consumer tells the producer. mem says which entry each non-zero byte belongs to. The entries,
      and how many have been consumed and fed back, are not part of the program's memory. */
  datatype State = State(remain: int, off: nat, header: nat, tail: nat, head: nat, mem: map<int, nat>,
                         log: seq<Entry>, consumed: nat, fed: nat)

  ghost predicate Init(s: State) {
    s == State(BUF, 0, 0, 0, 0, map[], [], 0, 0)
  }

  /** Sizes are rounded up to words, and an entry without its acknowledgement fits the padding. */
  predicate Sized(size: nat) {
    WORD < size <= PADDING + WORD && size % WORD == 0
  }

  /** What the producer takes for the free space when it reads the header. */
  function Computed(off: nat, header: nat): int {
    if off > header then BUF - off + header else header - off
  }

  function Advance(at: nat, size: nat): nat {
    (at + size) % BUF
  }

  /** log_setup: with enough room left, or after reading a header that shows enough. */
  ghost predicate Setup(s: State, s': State, size: nat) {
    && Sized(size)
    && var room := if s.remain < size + HOLE then Computed(s.off, s.header) else s.remain;
    && size + HOLE <= room
    && s' == s.(remain := room - size, off := Advance(s.off, size), log := s.log + [Entry(s.off, size, false, false)])
  }

  function Span(at: nat, size: nat): (r: set<int>)
    ensures forall o :: o in r <==> at <= o < at + size
  {
    if size == 0 then {} else Span(at, size - 1) + {at + size - 1}
  }

  function Fill(mem: map<int, nat>, at: nat, size: nat, i: nat): map<int, nat> {
    mem + map o | o in Span(at, size) :: i
  }

  /** Where the last word of an entry is. */
  function Last(e: Entry): nat {
    if e.size < WORD then e.start else e.start + e.size - WORD
  }

  function Zero(mem: map<int, nat>, at: nat, size: nat): map<int, nat> {
    map o | o in mem && !(at <= o < at + size) :: mem[o]
  }

  /** Everything but the last word arrives. */
  ghost predicate Write(s: State, s': State, i: nat) {
    && i < |s.log| && !s.log[i].written
    && var e := s.log[i];
    && s' == s.(log := s.log[i := e.(written := true)], mem := Fill(s.mem, e.start, Last(e) - e.start, i))
  }

  ghost predicate Ack(s: State, s': State, i: nat) {
    && i < |s.log| && s.log[i].written && !s.log[i].acked
    && var e := s.log[i];
    && s' == s.(log := s.log[i := e.(acked := true)], mem := Fill(s.mem, Last(e), WORD, i))
  }

  function Processed(tail: nat, head: nat): nat
    requires head <= BUF
  {
    if tail >= head then tail - head else BUF - head + tail
  }

  /** run: the entry found at the tail is complete; it is processed, zeroed, and passed. */
  ghost predicate Consume(s: State, s': State, i: nat) {
    && s.tail in s.mem && s.mem[s.tail] == i && i < |s.log| && s.log[i].start == s.tail && s.log[i].written && s.log[i].acked
    && s.head <= BUF
    && var e := s.log[i];
    && var tail := Advance(s.tail, e.size);
    && var after := s.(tail := tail, mem := Zero(s.mem, s.tail, e.size), consumed := s.consumed + 1);
    && s' == if Processed(tail, s.head) >= THRESHOLD then after.(header := tail, head := tail, fed := s.consumed + 1) else after
  }

  datatype Step = SetupStep(size: nat) | WriteStep(i: nat) | AckStep(i: nat) | ConsumeStep(i: nat)

  ghost predicate NextBy(s: State, s': State, step: Step) {
    match step
    case SetupStep(size) => Setup(s, s', size)
    case WriteStep(i) => Write(s, s', i)
    case AckStep(i) => Ack(s, s', i)
    case ConsumeStep(i) => Consume(s, s', i)
  }

  ghost predicate Next(s: State, s': State) {
    exists step :: NextBy(s, s', step)
  }

  ghost predicate StepAt(run: seq<State>, i: nat)
    requires i + 1 < |run|
  {
    Next(run[i], run[i + 1])
  }

  ghost predicate Run(run: seq<State>) {
    run != [] && Init(run[0]) && forall i | 0 <= i < |run| - 1 :: StepAt(run, i)
  }

  // ---------------------------------------------------------------------------------------------
  // The invariant
  // ---------------------------------------------------------------------------------------------

  /** Where the n-th entry starts, if the ring were unrolled. */
  ghost function Pos(log: seq<Entry>, n: nat): nat
    requires n <= |log|
  {
    if n == 0 then 0 else Pos(log, n - 1) + log[n - 1].size
  }

  ghost predicate EntryOk(log: seq<Entry>, i: nat)
    requires i < |log|
  {
    Sized(log[i].size) && log[i].start == Pos(log, i) % BUF && (log[i].acked ==> log[i].written)
  }

  /** The bytes of entry i that have arrived. */
  predicate Arrived(e: Entry, o: int) {
    (e.written && e.start <= o < Last(e)) || (e.acked && Last(e) <= o < e.start + e.size)
  }

  /** A byte is not zero exactly if it has arrived with an entry that is not consumed yet. */
  ghost predicate ByteOk(s: State, o: int) {
    && (o in s.mem ==> s.consumed <= s.mem[o] < |s.log| && Arrived(s.log[s.mem[o]], o))
    && forall i | s.consumed <= i < |s.log| && Arrived(s.log[i], o) :: o in s.mem && s.mem[o] == i
  }

  ghost predicate Inv(s: State) {
    && s.fed <= s.consumed <= |s.log| && (forall i | 0 <= i < s.consumed :: s.log[i].acked)
    && (forall i {:trigger EntryOk(s.log, i)} | 0 <= i < |s.log| :: EntryOk(s.log, i))
    && s.off == Pos(s.log, |s.log|) % BUF && s.tail == Pos(s.log, s.consumed) % BUF
    && s.header == s.head == Pos(s.log, s.fed) % BUF
    && s.remain <= BUF - (Pos(s.log, |s.log|) - Pos(s.log, s.fed))
    && Pos(s.log, |s.log|) - Pos(s.log, s.fed) <= BUF - HOLE
    && forall o {:trigger ByteOk(s, o)} :: ByteOk(s, o)
  }

  lemma {:induction false} PosKept(a: seq<Entry>, b: seq<Entry>, n: nat)
    requires n <= |a| && n <= |b| && forall i | 0 <= i < n :: a[i].size == b[i].size
    ensures Pos(a, n) == Pos(b, n)
  {
    if n > 0 { PosKept(a, b, n - 1); }
  }

  lemma {:induction false} PosMonotone(log: seq<Entry>, i: nat, j: nat)
    requires i <= j <= |log|
    ensures Pos(log, i) <= Pos(log, j) && (i < j ==> Pos(log, i) + log[i].size <= Pos(log, j))
    decreases j
  {
    if i < j { PosMonotone(log, i, j - 1); }
  }

  lemma {:induction false} PosAligned(log: seq<Entry>, n: nat)
    requires n <= |log| && forall i | 0 <= i < |log| :: EntryOk(log, i)
    ensures Pos(log, n) % WORD == 0
  {
    if n > 0 {
      PosAligned(log, n - 1);
      assert EntryOk(log, n - 1);
    }
  }

  /** Two entries of a window shorter than the ring do not share a byte, though either may run on into
      the padding. */
  lemma EntriesDisjoint(p: nat, a: nat, q: nat, b: nat)
    requires p + a <= q && q + b <= p + BUF
    ensures p % BUF + a <= q % BUF || q % BUF + b <= p % BUF
  {
    var m, n := p / BUF, q / BUF;
    assert p == m * BUF + p % BUF && q == n * BUF + q % BUF;
    assert n == m || n == m + 1;
  }

  /** Every entry ends within the padding. */
  lemma EntryFits(log: seq<Entry>, i: nat)
    requires i < |log| && forall j | 0 <= j < |log| :: EntryOk(log, j)
    ensures log[i].start + log[i].size <= BUF + PADDING
  {
    assert EntryOk(log, i);
    PosAligned(log, i);
    AlignedPlace(Pos(log, i));
  }

  lemma AlignedPlace(p: nat)
    requires p % WORD == 0
    ensures p % BUF <= BUF - WORD
  {
    var words := BUF / WORD;
    assert BUF == WORD * words;
    var q, r := p / BUF, p % BUF;
    assert p == q * BUF + r;
    assert r == WORD * (p / WORD - q * words);
  }

  /** Entries that have not been fed back are disjoint. */
  lemma LiveDisjoint(s: State, i: nat, j: nat, o: int)
    requires Inv(s) && s.fed <= i < |s.log| && s.fed <= j < |s.log|
    requires s.log[i].start <= o < s.log[i].start + s.log[i].size && s.log[j].start <= o < s.log[j].start + s.log[j].size
    ensures i == j
  {
    if i < j { LiveApart(s, i, j); } else if j < i { LiveApart(s, j, i); }
  }

  lemma LiveApart(s: State, i: nat, j: nat)
    requires Inv(s) && s.fed <= i < j < |s.log|
    ensures s.log[i].start + s.log[i].size <= s.log[j].start || s.log[j].start + s.log[j].size <= s.log[i].start
  {
    assert EntryOk(s.log, i) && EntryOk(s.log, j);
    PosMonotone(s.log, s.fed, i);
    PosMonotone(s.log, i, j);
    PosMonotone(s.log, j, |s.log|);
    EntriesDisjoint(Pos(s.log, i), s.log[i].size, Pos(s.log, j), s.log[j].size);
  }

  lemma NotShared(s: State, i: nat, j: nat, o: int)
    requires Inv(s) && s.fed <= i < |s.log| && s.fed <= j < |s.log| && i != j && s.log[i].start <= o < s.log[i].start + s.log[i].size
    ensures !Arrived(s.log[j], o)
  {
    assert EntryOk(s.log, j);
    if i < j { LiveApart(s, i, j); } else { LiveApart(s, j, i); }
  }

  // ---------------------------------------------------------------------------------------------
  // Steps
  // ---------------------------------------------------------------------------------------------

  /** What the producer computes from the header is the free space, except that an empty ring would look
      like a full one. */
  lemma ComputedRoom(a: nat, f: nat)
    requires f <= a && a - f <= BUF - HOLE
    ensures Computed(a % BUF, f % BUF) == if a == f then 0 else BUF - (a - f)
  {
    var m, n := f / BUF, a / BUF;
    assert f == m * BUF + f % BUF && a == n * BUF + a % BUF;
    assert n == m || n == m + 1;
  }

  lemma AdvanceIs(p: nat, size: nat)
    ensures Advance(p % BUF, size) == (p + size) % BUF
  {
    assert p == p / BUF * BUF + p % BUF;
    ModAdd(p / BUF, p % BUF + size);
  }

  lemma ModAdd(k: nat, x: nat)
    ensures (k * BUF + x) % BUF == x % BUF
  {
  }

  lemma SetupInv(s: State, s': State, size: nat)
    requires Inv(s) && Setup(s, s', size)
    ensures Inv(s')
  {
    var n := |s.log|;
    SetupPlaces(s, s', size);
    forall i | 0 <= i < |s'.log| ensures EntryOk(s'.log, i) { if i < n { assert EntryOk(s.log, i); } }
    forall o ensures ByteOk(s', o) { assert ByteOk(s, o); }
  }

  lemma SetupPlaces(s: State, s': State, size: nat)
    requires Inv(s) && Setup(s, s', size)
    ensures |s'.log| == |s.log| + 1 && Pos(s'.log, |s'.log|) == Pos(s.log, |s.log|) + size
    ensures forall k | 0 <= k <= |s.log| :: Pos(s'.log, k) == Pos(s.log, k)
    ensures s'.off == Pos(s'.log, |s'.log|) % BUF
    ensures s'.remain <= BUF - (Pos(s'.log, |s'.log|) - Pos(s.log, s.fed)) && HOLE <= s'.remain
  {
    var n := |s.log|;
    PosMonotone(s.log, s.fed, n);
    ComputedRoom(Pos(s.log, n), Pos(s.log, s.fed));
    forall k | 0 <= k <= n ensures Pos(s'.log, k) == Pos(s.log, k) { PosKept(s.log, s'.log, k); }
    AdvanceIs(Pos(s.log, n), size);
  }

  /** A step that only marks entry i. */
  lemma MarkKeeps(s: State, s': State, i: nat)
    requires Inv(s) && i < |s.log| == |s'.log| && s'.log == s.log[i := s'.log[i]]
    requires s'.log[i].start == s.log[i].start && s'.log[i].size == s.log[i].size && (s'.log[i].acked ==> s'.log[i].written)
    requires s.log[i].acked ==> s'.log[i].acked
    requires s' == s.(log := s'.log, mem := s'.mem) && forall o {:trigger ByteOk(s', o)} :: ByteOk(s', o)
    ensures Inv(s')
  {
    forall k | 0 <= k <= |s.log| ensures Pos(s'.log, k) == Pos(s.log, k) { PosKept(s.log, s'.log, k); }
    forall k | 0 <= k < |s'.log| ensures EntryOk(s'.log, k) { assert EntryOk(s.log, k); }
  }

  /** The bytes that arrive were zero, and become the entry's. */
  lemma ArrivalBytes(s: State, s': State, i: nat, at: nat, size: nat, o: int)
    requires Inv(s) && s.consumed <= i < |s.log| == |s'.log| && s'.consumed == s.consumed && s'.log == s.log[i := s'.log[i]]
    requires s'.log[i].start == s.log[i].start && s'.log[i].size == s.log[i].size && s'.mem == Fill(s.mem, at, size, i)
    requires s.log[i].start <= at && at + size <= s.log[i].start + s.log[i].size
    requires forall x: int :: Arrived(s'.log[i], x) <==> Arrived(s.log[i], x) || at <= x < at + size
    requires forall x: int | at <= x < at + size :: !Arrived(s.log[i], x)
    ensures ByteOk(s', o) && (at <= o < at + size ==> o !in s.mem)
  {
    assert ByteOk(s, o);
    if at <= o < at + size {
      forall j | s.consumed <= j < |s.log| && j != i ensures !Arrived(s.log[j], o) { NotShared(s, i, j, o); }
    }
  }

  lemma WriteInv(s: State, s': State, i: nat)
    requires Inv(s) && Write(s, s', i)
    ensures Inv(s') && forall o | s.log[i].start <= o < Last(s.log[i]) :: o !in s.mem
  {
    assert EntryOk(s.log, i);
    var e := s.log[i];
    forall o ensures ByteOk(s', o) && (e.start <= o < Last(e) ==> o !in s.mem) {
      ArrivalBytes(s, s', i, e.start, Last(e) - e.start, o);
    }
    MarkKeeps(s, s', i);
  }

  lemma AckInv(s: State, s': State, i: nat)
    requires Inv(s) && Ack(s, s', i)
    ensures Inv(s') && forall o | Last(s.log[i]) <= o < s.log[i].start + s.log[i].size :: o !in s.mem
  {
    assert EntryOk(s.log, i);
    var e := s.log[i];
    var at := Last(e);
    forall o ensures ByteOk(s', o) && (at <= o < at + WORD ==> o !in s.mem) {
      ArrivalBytes(s, s', i, at, WORD, o);
    }
    MarkKeeps(s, s', i);
  }

  /** The entry at the tail is the next one. */
  lemma ConsumesNext(s: State, s': State, i: nat)
    requires Inv(s) && Consume(s, s', i)
    ensures i == s.consumed && s.log[i].size > 0
  {
    assert ByteOk(s, s.tail);
    assert EntryOk(s.log, s.consumed) && EntryOk(s.log, i);
    LiveDisjoint(s, s.consumed, i, s.tail);
  }

  lemma ConsumeBytes(s: State, s': State, i: nat, o: int)
    requires Inv(s) && Consume(s, s', i) && i == s.consumed
    ensures ByteOk(s', o)
  {
    assert ByteOk(s, o) && EntryOk(s.log, i);
    var e := s.log[i];
    if e.start <= o < e.start + e.size {
      forall j | s.consumed <= j < |s.log| && j != i ensures !Arrived(s.log[j], o) { NotShared(s, i, j, o); }
    }
  }

  lemma ConsumeInv(s: State, s': State, i: nat)
    requires Inv(s) && Consume(s, s', i)
    ensures Inv(s')
  {
    ConsumesNext(s, s', i);
    AdvanceIs(Pos(s.log, i), s.log[i].size);
    PosMonotone(s.log, s.fed, i);
    PosMonotone(s.log, i + 1, |s.log|);
    forall o ensures ByteOk(s', o) { ConsumeBytes(s, s', i, o); }
  }

  lemma NextInv(s: State, s': State)
    requires Inv(s) && Next(s, s')
    ensures Inv(s')
  {
    var step :| NextBy(s, s', step);
    match step
    case SetupStep(size) => SetupInv(s, s', size);
    case WriteStep(i) => WriteInv(s, s', i);
    case AckStep(i) => AckInv(s, s', i);
    case ConsumeStep(i) => ConsumeInv(s, s', i);
  }

  lemma {:induction false} RunInv(run: seq<State>, i: nat)
    requires Run(run) && i < |run|
    ensures Inv(run[i])
  {
    if i > 0 {
      RunInv(run, i - 1);
      assert StepAt(run, i - 1);
      NextInv(run[i - 1], run[i]);
    }
  }

  // ---------------------------------------------------------------------------------------------
  // Reports of the consumer
  // ---------------------------------------------------------------------------------------------

  /** The bytes of the ring that no entry occupies, until it is fed back. */
  ghost function Free(s: State): int
    requires s.fed <= |s.log|
  {
    BUF - (Pos(s.log, |s.log|) - Pos(s.log, s.fed))
  }

  /** What has been fed back since the producer last looked came in k reports, none of them shorter than
      the threshold or longer than one entry more; what has been consumed since is below the threshold. */
  ghost predicate Reports(s: State, k: nat) {
    && s.fed <= s.consumed <= |s.log| && HOLE <= s.remain && Pos(s.log, s.consumed) - Pos(s.log, s.fed) < THRESHOLD
    && Between(k, Free(s) - s.remain)
  }

  ghost predicate Between(k: nat, amount: int) {
    k * THRESHOLD <= amount <= k * (THRESHOLD + PADDING + WORD)
  }

  lemma OneMore(k: nat, amount: int, window: int)
    requires Between(k, amount) && THRESHOLD <= window <= THRESHOLD + PADDING + WORD
    ensures Between(k + 1, amount + window)
  {
    assert (k + 1) * THRESHOLD == k * THRESHOLD + THRESHOLD;
    assert (k + 1) * (THRESHOLD + PADDING + WORD) == k * (THRESHOLD + PADDING + WORD) + (THRESHOLD + PADDING + WORD);
  }

  /** Eight reports would take up the whole ring, and seven do not come near its last entry. */
  lemma FewReports(k: nat, amount: int)
    requires Between(k, amount) && amount <= BUF - HOLE
    ensures amount < BUF - HOLE - (PADDING + WORD)
  {
    assert BUF == 8 * THRESHOLD;
    assert k < 8;
    assert k * (THRESHOLD + PADDING + WORD) <= 7 * (THRESHOLD + PADDING + WORD);
  }

  lemma ProcessedIs(c: nat, f: nat)
    requires f <= c < f + BUF
    ensures Processed(c % BUF, f % BUF) == c - f
  {
    var m, n := f / BUF, c / BUF;
    assert f == m * BUF + f % BUF && c == n * BUF + c % BUF;
    assert n == m || n == m + 1;
  }

  lemma SetupReports(s: State, s': State, size: nat, k: nat) returns (k': nat)
    requires Inv(s) && Reports(s, k) && Setup(s, s', size)
    ensures Reports(s', k')
  {
    SetupPlaces(s, s', size);
    PosMonotone(s.log, s.fed, |s.log|);
    ComputedRoom(Pos(s.log, |s.log|), Pos(s.log, s.fed));
    k' := if s.remain < size + HOLE then 0 else k;
  }

  lemma MarkReports(s: State, s': State, i: nat, k: nat)
    requires Inv(s) && Reports(s, k) && (Write(s, s', i) || Ack(s, s', i))
    ensures Reports(s', k)
  {
    forall n | 0 <= n <= |s.log| ensures Pos(s'.log, n) == Pos(s.log, n) { PosKept(s.log, s'.log, n); }
  }

  lemma ConsumeReports(s: State, s': State, i: nat, k: nat) returns (k': nat)
    requires Inv(s) && Reports(s, k) && Consume(s, s', i)
    ensures Reports(s', k')
  {
    ConsumesNext(s, s', i);
    assert EntryOk(s.log, i);
    AdvanceIs(Pos(s.log, i), s.log[i].size);
    PosMonotone(s.log, s.fed, i);
    PosMonotone(s.log, i + 1, |s.log|);
    var window := Pos(s.log, i + 1) - Pos(s.log, s.fed);
    ProcessedIs(Pos(s.log, i + 1), Pos(s.log, s.fed));
    k' := k;
    if window >= THRESHOLD {
      OneMore(k, Free(s) - s.remain, window);
      k' := k + 1;
    }
  }

  lemma {:induction false} RunReports(run: seq<State>, i: nat)
    requires Run(run) && i < |run|
    ensures exists k: nat :: Reports(run[i], k)
  {
    if i == 0 {
      assert Between(0, 0);
      assert Reports(run[0], 0);
    } else {
      RunReports(run, i - 1);
      RunInv(run, i - 1);
      assert StepAt(run, i - 1);
      var s, s' := run[i - 1], run[i];
      var step, k: nat :| NextBy(s, s', step) && Reports(s, k);
      match step
      case SetupStep(size) => { var _ := SetupReports(s, s', size, k); }
      case WriteStep(j) => MarkReports(s, s', j, k);
      case AckStep(j) => MarkReports(s, s', j, k);
      case ConsumeStep(j) => { var _ := ConsumeReports(s, s', j, k); }
    }
  }

  // ---------------------------------------------------------------------------------------------
  // What the ring promises
  // ---------------------------------------------------------------------------------------------

  /** The producer's idea of the room left never exceeds what is really free. */
  lemma RoomIsReal(run: seq<State>, i: nat)
    requires Run(run) && i < |run|
    ensures run[i].fed <= |run[i].log| && run[i].remain <= Free(run[i])
  {
    RunInv(run, i);
  }

  /** Reading the header gives exactly the free space, unless everything has been fed back: then it
      gives nothing. But the producer never reads it then: whenever it has too little room left to go
      on without, what it reads is the free space. */
  lemma HeaderTells(run: seq<State>, i: nat, size: nat)
    requires Run(run) && i < |run|
    ensures var s := run[i];
            && s.fed <= |s.log| && (Computed(s.off, s.header) == Free(s) <==> s.fed < |s.log|)
            && (Sized(size) && s.remain < size + HOLE ==> Computed(s.off, s.header) == Free(s))
  {
    var s := run[i];
    RunInv(run, i);
    PosMonotone(s.log, s.fed, |s.log|);
    ComputedRoom(Pos(s.log, |s.log|), Pos(s.log, s.fed));
    if s.fed < |s.log| {
      assert EntryOk(s.log, s.fed);
    } else if Sized(size) {
      NeverStalls(run, i, size);
    }
  }

  /** When everything has been fed back, the room that the producer remembers is enough for any entry:
      no more than seven reports of the consumer can have come since it last read the header. */
  lemma NeverStalls(run: seq<State>, i: nat, size: nat)
    requires Run(run) && i < |run| && Sized(size) && run[i].fed == |run[i].log|
    ensures size + HOLE <= run[i].remain
  {
    RunReports(run, i);
    var k: nat :| Reports(run[i], k);
    FewReports(k, BUF - run[i].remain);
  }

  /** So producer and consumer never wait for each other: once everything has been consumed, fed back
      or not, there is room for the next entry, and the producer sees it. */
  lemma CaughtUpMeansRoom(run: seq<State>, i: nat, size: nat)
    requires Run(run) && i < |run| && Sized(size) && run[i].consumed == |run[i].log|
    ensures exists s' :: Setup(run[i], s', size)
  {
    var s := run[i];
    RunInv(run, i);
    RunReports(run, i);
    HeaderTells(run, i, size);
    var room := if s.remain < size + HOLE then Computed(s.off, s.header) else s.remain;
    var s' := s.(remain := room - size, off := Advance(s.off, size), log := s.log + [Entry(s.off, size, false, false)]);
    assert Setup(s, s', size);
  }

  /** A reservation succeeds, at once or at the next look at the header, exactly if the bytes are really
      free. */
  lemma ReservesExactlyWhenFree(run: seq<State>, i: nat, size: nat)
    requires Run(run) && i < |run| && Sized(size)
    ensures run[i].fed <= |run[i].log|
    ensures (exists s' :: Setup(run[i], s', size)) <==> size + HOLE <= Free(run[i])
  {
    var s := run[i];
    RunInv(run, i);
    HeaderTells(run, i, size);
    var room := if s.remain < size + HOLE then Computed(s.off, s.header) else s.remain;
    if size + HOLE <= room {
      var s' := s.(remain := room - size, off := Advance(s.off, size), log := s.log + [Entry(s.off, size, false, false)]);
      assert Setup(s, s', size);
    }
  }

  /** The consumer finds an entry exactly if the next one has been acknowledged. */
  lemma ConsumesExactlyWhen(run: seq<State>, i: nat)
    requires Run(run) && i < |run|
    ensures run[i].consumed <= |run[i].log|
    ensures (exists s', k :: Consume(run[i], s', k)) <==> run[i].consumed < |run[i].log| && run[i].log[run[i].consumed].acked
  {
    var s := run[i];
    RunInv(run, i);
    if s', k :| Consume(s, s', k) { ConsumesNext(s, s', k); }
    if s.consumed < |s.log| && s.log[s.consumed].acked {
      var k := s.consumed;
      assert EntryOk(s.log, k) && ByteOk(s, s.tail) && Arrived(s.log[k], s.tail);
      var tail := Advance(s.tail, s.log[k].size);
      var after := s.(tail := tail, mem := Zero(s.mem, s.tail, s.log[k].size), consumed := k + 1);
      var s' := if Processed(tail, s.head) >= THRESHOLD then after.(header := tail, head := tail, fed := k + 1) else after;
      assert Consume(s, s', k);
    }
  }

  /** It reports exactly when an eighth of the ring has been consumed since its last report, and what it has
      consumed is zero again. */
  lemma ReportsExactlyWhen(run: seq<State>, i: nat, k: nat)
    requires Run(run) && i + 1 < |run| && Consume(run[i], run[i + 1], k)
    ensures var s, s' := run[i], run[i + 1];
            && s.fed <= k < |s.log| && s'.consumed == k + 1 && s'.log == s.log && s'.remain == s.remain
            && s'.fed == (if Pos(s.log, k + 1) - Pos(s.log, s.fed) >= BUF / 8 then k + 1 else s.fed)
            && s'.header == Pos(s.log, s'.fed) % BUF
            && forall o :: o in s'.mem <==> o in s.mem && !(s.log[k].start <= o < s.log[k].start + s.log[k].size)
  {
    var s := run[i];
    RunInv(run, i);
    RunInv(run, i + 1);
    ConsumesNext(s, run[i + 1], k);
    assert EntryOk(s.log, k);
    AdvanceIs(Pos(s.log, k), s.log[k].size);
    PosMonotone(s.log, s.fed, k);
    PosMonotone(s.log, k + 1, |s.log|);
    ProcessedIs(Pos(s.log, k + 1), Pos(s.log, s.fed));
  }

  /** What has been reserved can always be written, and then acknowledged. */
  lemma WriteNeverStuck(run: seq<State>, i: nat, k: nat)
    requires Run(run) && i < |run| && k < |run[i].log|
    ensures (exists s' :: Write(run[i], s', k) || Ack(run[i], s', k)) <==> !run[i].log[k].acked
  {
    var s := run[i];
    RunInv(run, i);
    assert EntryOk(s.log, k);
    var e := s.log[k];
    if !e.written {
      assert Write(s, s.(log := s.log[k := e.(written := true)], mem := Fill(s.mem, e.start, Last(e) - e.start, k)), k);
    } else if !e.acked {
      assert Ack(s, s.(log := s.log[k := e.(acked := true)], mem := Fill(s.mem, Last(e), WORD, k)), k);
    }
  }

  /** Whatever the producer writes, it writes into zero bytes: never over an entry that has not been
      consumed, let alone fed back. */
  lemma WritesIntoZeros(run: seq<State>, i: nat, k: nat)
    requires Run(run) && i + 1 < |run| && (Write(run[i], run[i + 1], k) || Ack(run[i], run[i + 1], k))
    ensures var s, e := run[i], run[i].log[k];
            if e.written then forall o | Last(e) <= o < e.start + e.size :: o !in s.mem else forall o | e.start <= o < Last(e) :: o !in s.mem
    ensures forall o | o in run[i].mem :: o in run[i + 1].mem && run[i + 1].mem[o] == run[i].mem[o]
  {
    RunInv(run, i);
    assert EntryOk(run[i].log, k);
    if Write(run[i], run[i + 1], k) { WriteInv(run[i], run[i + 1], k); } else { AckInv(run[i], run[i + 1], k); }
  }

  /** Every entry stays within the ring and its padding, and entries that are not fed back share no byte. */
  lemma EntriesKeepApart(run: seq<State>, i: nat, a: nat, b: nat)
    requires Run(run) && i < |run| && run[i].fed <= a < b < |run[i].log|
    ensures var x, y := run[i].log[a], run[i].log[b];
            && x.start + x.size <= BUF + PADDING && y.start + y.size <= BUF + PADDING
            && (x.start + x.size <= y.start || y.start + y.size <= x.start)
  {
    RunInv(run, i);
    LiveApart(run[i], a, b);
    EntryFits(run[i].log, a);
    EntryFits(run[i].log, b);
  }

  /** The consumer takes the entries in the order they were reserved, and its tail is always where the
      next entry starts or will start. */
  lemma ConsumesInOrder(run: seq<State>, i: nat, k: nat)
    requires Run(run) && i + 1 < |run|
    ensures Consume(run[i], run[i + 1], k) ==> k == run[i].consumed
    ensures run[i].tail == if run[i].consumed < |run[i].log| then run[i].log[run[i].consumed].start else run[i].off
  {
    RunInv(run, i);
    if run[i].consumed < |run[i].log| { assert EntryOk(run[i].log, run[i].consumed); }
    if Consume(run[i], run[i + 1], k) { ConsumesNext(run[i], run[i + 1], k); }
  }

  /** Where the next entry is not complete, the consumer finds a zero or that entry's own bytes. */
  lemma TailIsClean(run: seq<State>, i: nat)
    requires Run(run) && i < |run| && run[i].tail in run[i].mem
    ensures run[i].mem[run[i].tail] == run[i].consumed
  {
    var s := run[i];
    RunInv(run, i);
    assert ByteOk(s, s.tail);
    assert EntryOk(s.log, s.consumed) && EntryOk(s.log, s.mem[s.tail]);
    LiveDisjoint(s, s.consumed, s.mem[s.tail], s.tail);
  }

  // ---------------------------------------------------------------------------------------------
  // The two ends
  // ---------------------------------------------------------------------------------------------

  /** The producer's side of the ring, for one backup. */
  class Producer {
    var remain: int
    var off: nat

    constructor ()
      ensures remain == BUF && off == 0
    {
      remain, off := BUF, 0;
    }

    /** log_setup: reserve room for an entry, if need be after polling the header; headers are the
        values that the polls return. None means that they have not shown enough room. */
    method LogSetup(size: nat, headers: seq<nat>) returns (place: int)
      modifies this
      ensures place == -1 <==> remain == old(remain) && off == old(off) && old(remain) < size + HOLE
                               && forall i | 0 <= i < |headers| :: Computed(old(off), headers[i]) < size + HOLE
      ensures place != -1 ==>
                && place == old(off) && off == Advance(old(off), size)
                && if size + HOLE <= old(remain) then remain == old(remain) - size
                   else exists i :: FirstRoom(old(off), size, headers, i) && remain == Computed(old(off), headers[i]) - size
    {
      if remain < size + HOLE {
        var room, i := 0, 0;
        while room < size + HOLE && i < |headers|
          invariant i <= |headers| && (i == 0 ==> room == 0) && (0 < i ==> room == Computed(off, headers[i - 1]))
          invariant forall j | 0 <= j < i - 1 :: Computed(off, headers[j]) < size + HOLE
          decreases |headers| - i
        {
          room := if off > headers[i] then BUF - off + headers[i] else headers[i] - off;
          i := i + 1;
        }
        if room < size + HOLE { return -1; }
        assert FirstRoom(off, size, headers, i - 1);
        remain := room;
      }
      remain := remain - size;
      place := off;
      off := (off + size) % BUF;
    }
  }

  /** The i-th poll is the first that shows enough room. */
  ghost predicate FirstRoom(off: nat, size: nat, headers: seq<nat>, i: int) {
    && 0 <= i < |headers| && size + HOLE <= Computed(off, headers[i])
    && forall j | 0 <= j < i :: Computed(off, headers[j]) < size + HOLE
  }

  /** The consumer's side. */
  class Consumer {
    var tail: nat
    var head: nat

    ghost predicate Valid()
      reads this
    {
      tail < BUF && head < BUF
    }

    constructor ()
      ensures Valid() && tail == 0 == head
    {
      tail, head := 0, 0;
    }

    /** One entry of the given size has been processed. feedback says that the tail goes to the producer. */
    method Pass(size: nat) returns (feedback: bool)
      requires Valid()
      modifies this
      ensures Valid() && tail == Advance(old(tail), size)
      ensures feedback == (Processed(tail, old(head)) >= THRESHOLD) && head == if feedback then tail else old(head)
    {
      tail := (tail + size) % BUF;
      var processed := if tail >= head then tail - head else BUF - head + tail;
      feedback := processed >= THRESHOLD;
      if feedback { head := tail; }
    }
  }
}
