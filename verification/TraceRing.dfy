/** The debugger-side reader of the guest's 256-slot CPU trace ring. */
module TraceRing {
  import opened Bytes

  const SLOTS := 256
  const HEADER_BYTES := 32
  const RECORD_BYTES := 192
  const MAX_RECORDS := 2048
  const CLOCK_LIMIT := 0x1000_0000_0000_0000
  const GENERATION_LIMIT := 0x8000_0000
  const OWNERS := 8

  /** The fields of one 192-byte record, after little-endian unpacking. */
  datatype Record = Record(
    version: nat, kind: nat, index: nat, slot: nat, gen: nat, now: nat, result: nat, words: seq<bv64>)

  datatype Event = Event(slot: nat, gen: nat, now: nat, result: nat, before: seq<bv64>, after: seq<bv64>)

  /** Who started with a generation number, and whether it still lives. */
  datatype Owner = Owner(live: bool, slot: nat)

  /** The ring as it stands while the guest is halted: four header words and the slots. */
  datatype Snapshot = Snapshot(total: nat, error: nat, pending: nat, reserved: nat, slots: seq<Record>)

  datatype Outcome = Done | BadHeader | AfterClosure | BadClock | BadRecord | BadOwner | Incomplete
                   | Duplicate | NotZero | ClosureState | EmptyClosure

  predicate InterruptBit(word: bv64) { word & 512 != 0 }

  /** A record is accepted only as the one with the given running number. */
  predicate Decodes(r: Record, sequence: int) {
    && 1 <= sequence <= MAX_RECORDS
    && r.version == 1 && r.kind == 1 && r.index == sequence
    && r.slot < OWNERS && 0 < r.gen < GENERATION_LIMIT && r.now < CLOCK_LIMIT && (r.result == 1 || r.result == 2)
    && |r.words| == 19 && !InterruptBit(r.words[16]) && !InterruptBit(r.words[17]) && r.words[18] == 8
  }

  function EventOf(r: Record): Event {
    if |r.words| == 19 then Event(r.slot, r.gen, r.now, r.result, r.words[..8], r.words[8..16])
    else Event(r.slot, r.gen, r.now, r.result, [], [])
  }

  predicate Owned(r: Record, starts: map<nat, Owner>, now: int) {
    r.gen in starts && starts[r.gen].live && starts[r.gen].slot == r.slot && r.now <= now
  }

  predicate Good(r: Record, sequence: int, starts: map<nat, Owner>, now: int) {
    Decodes(r, sequence) && Owned(r, starts, now)
  }

  datatype Reader = Reader(sequence: int, started: bool, closed: bool, stream: seq<Record>, ledger: seq<Event>)

  /** The n records that follow the given one in the ring. */
  function Window(slots: seq<Record>, sequence: int, n: nat): seq<Record>
    requires |slots| >= SLOTS && 0 <= sequence
  {
    if n == 0 then [] else Window(slots, sequence, n - 1) + [slots[(sequence + n - 1) % SLOTS]]
  }

  lemma {:induction false} WindowAt(slots: seq<Record>, sequence: int, n: nat)
    requires |slots| >= SLOTS && 0 <= sequence
    ensures |Window(slots, sequence, n)| == n
    ensures forall j :: 0 <= j < n ==> Window(slots, sequence, n)[j] == slots[(sequence + j) % SLOTS]
  {
    if n > 0 {
      WindowAt(slots, sequence, n - 1);
    }
  }

  function Events(rs: seq<Record>): seq<Event> {
    if rs == [] then [] else Events(rs[..|rs| - 1]) + [EventOf(rs[|rs| - 1])]
  }

  ghost predicate GoodAt(rs: seq<Record>, sequence: int, starts: map<nat, Owner>, now: int, k: int)
    requires 0 <= k < |rs|
  {
    Good(rs[k], sequence + k + 1, starts, now)
  }

  /** Consecutive good records, numbered from sequence + 1 on. */
  ghost predicate AllGood(rs: seq<Record>, sequence: int, starts: map<nat, Owner>, now: int) {
    forall k {:trigger GoodAt(rs, sequence, starts, now, k)} :: 0 <= k < |rs| ==> GoodAt(rs, sequence, starts, now, k)
  }

  ghost predicate HeaderGood(s: Reader, m: Snapshot) {
    && m.error == 0 && m.pending == 0 && m.reserved == 0
    && s.sequence <= m.total <= MAX_RECORDS && m.total - s.sequence <= SLOTS
  }

  /** The first n records of the window were good and taken over. */
  ghost predicate TookOver(s: Reader, m: Snapshot, now: int, starts: map<nat, Owner>, n: int, s': Reader)
    requires |m.slots| >= SLOTS && 0 <= s.sequence
  {
    && 0 <= n
    && var w := Window(m.slots, s.sequence, n);
       && AllGood(w, s.sequence, starts, now)
       && s' == s.(sequence := s.sequence + n, stream := s.stream + w, ledger := s.ledger + Events(w))
  }

  ghost predicate StoppedAt(s: Reader, m: Snapshot, now: int, starts: map<nat, Owner>, n: int, r: Outcome)
    requires |m.slots| >= SLOTS && 0 <= s.sequence
  {
    && (r == BadRecord || r == BadOwner)
    && 0 <= n && !Good(m.slots[(s.sequence + n) % SLOTS], s.sequence + n + 1, starts, now)
  }

  /** One drain: all pending records in order, or those before the first bad one, or nothing. */
  ghost predicate DrainStep(s: Reader, m: Snapshot, now: int, starts: map<nat, Owner>, s': Reader, r: Outcome)
    requires |m.slots| >= SLOTS && 0 <= s.sequence
  {
    if !s.started then s' == s && r == Done
    else if !HeaderGood(s, m) then s' == s && r == BadHeader
    else if s.closed && m.total != s.sequence then s' == s && r == AfterClosure
    else if m.total == s.sequence then s' == s && r == Done
    else if !(0 <= now < CLOCK_LIMIT) then s' == s && r == BadClock
    else exists n :: Advanced(s, m, now, starts, n, s', r)
  }

  /** The drain took over n records and stopped there for a reason. */
  ghost predicate Advanced(s: Reader, m: Snapshot, now: int, starts: map<nat, Owner>, n: int, s': Reader, r: Outcome)
    requires |m.slots| >= SLOTS && 0 <= s.sequence
  {
    && 0 <= n <= m.total - s.sequence && TookOver(s, m, now, starts, n, s')
    && if n == m.total - s.sequence then r == Done else StoppedAt(s, m, now, starts, n, r)
  }

  lemma TookOverStep(s: Reader, m: Snapshot, now: int, starts: map<nat, Owner>, n: int, s1: Reader, s2: Reader)
    requires |m.slots| >= SLOTS && 0 <= s.sequence && TookOver(s, m, now, starts, n, s1)
    requires var record := m.slots[(s.sequence + n) % SLOTS];
             && Good(record, s.sequence + n + 1, starts, now)
             && s2 == s1.(sequence := s1.sequence + 1, stream := s1.stream + [record],
                          ledger := s1.ledger + [EventOf(record)])
    ensures TookOver(s, m, now, starts, n + 1, s2)
  {
    var w, record := Window(m.slots, s.sequence, n), m.slots[(s.sequence + n) % SLOTS];
    WindowAt(m.slots, s.sequence, n);
    assert (w + [record])[..n] == w;
    forall k | 0 <= k < n + 1 ensures GoodAt(w + [record], s.sequence, starts, now, k) {
      assert k < n ==> GoodAt(w, s.sequence, starts, now, k);
    }
  }

  class TraceReader {
    var sequence: int
    var started: bool
    var closed: bool
    var stream: seq<Record>
    var ledger: seq<Event>

    function State(): Reader
      reads this
    {
      Reader(sequence, started, closed, stream, ledger)
    }

    constructor ()
      ensures State() == Reader(0, false, false, [], [])
    {
      sequence, started, closed, stream, ledger := 0, false, false, [], [];
    }

    /** Accepts only a whole symbol, header and slots, that is still all zero; and only once. */
    method Initialize(raw: seq<Byte>) returns (r: Outcome)
      modifies this
      ensures r == Done <==> !old(started) && raw == Zeros(HEADER_BYTES + (SLOTS + 1) * RECORD_BYTES)
      ensures r == Duplicate <==> old(started)
      ensures State() == if r == Done then old(State()).(started := true) else old(State())
    {
      if started { return Duplicate; }
      if |raw| != HEADER_BYTES + (SLOTS + 1) * RECORD_BYTES { return NotZero; }
      var k := 0;
      while k < |raw|
        invariant 0 <= k <= |raw| && forall j :: 0 <= j < k ==> raw[j] == 0
      {
        if raw[k] != 0 { return NotZero; }
        k := k + 1;
      }
      started := true;
      r := Done;
    }

    /** Takes over one record if it is the next one and its owner is alive. */
    method Take(record: Record, now: int, starts: map<nat, Owner>) returns (r: Outcome)
      modifies this`sequence, this`stream, this`ledger
      ensures r == Done <==> Good(record, old(sequence) + 1, starts, now)
      ensures r != Done ==> State() == old(State()) && (r == BadRecord || r == BadOwner)
      ensures r == Done ==> State() == old(State()).(sequence := old(sequence) + 1, stream := old(stream) + [record],
                                                     ledger := old(ledger) + [EventOf(record)])
    {
      if !Decodes(record, sequence + 1) { return BadRecord; }
      if !Owned(record, starts, now) { return BadOwner; }
      stream := stream + [record];
      ledger := ledger + [EventOf(record)];
      sequence := sequence + 1;
      r := Done;
    }

    /** One chunk: consecutive slots up to the end of the ring. */
    method TakeChunk(m: Snapshot, now: int, starts: map<nat, Owner>, ghost s: Reader, ghost n0: int)
      returns (r: Outcome, ghost n: int)
      requires |m.slots| >= SLOTS && 0 <= s.sequence && TookOver(s, m, now, starts, n0, State())
      requires sequence == s.sequence + n0 && sequence <= m.total
      modifies this`sequence, this`stream, this`ledger
      ensures n0 <= n <= m.total - s.sequence && TookOver(s, m, now, starts, n, State())
      ensures r == Done ==> sequence == m.total || sequence % SLOTS == 0
      ensures r == Done && old(sequence) % SLOTS == 0 && m.total - old(sequence) <= SLOTS ==> sequence == m.total
      ensures r != Done ==> n < m.total - s.sequence && StoppedAt(s, m, now, starts, n, r)
    {
      var start := sequence;
      var index := sequence % SLOTS;
      var count := if m.total - sequence < SLOTS - index then m.total - sequence else SLOTS - index;
      n := n0;
      var offset := 0;
      while offset < count
        invariant 0 <= offset <= count && sequence == start + offset && n == n0 + offset
        invariant sequence == s.sequence + n && TookOver(s, m, now, starts, n, State())
      {
        SlotOf(start, index, offset);
        r := TakeNext(m, index + offset, now, starts, s, n);
        if r != Done {
          return;
        }
        offset := offset + 1;
        n := n + 1;
      }
      ChunkEnd(start, index, count, m.total);
      r := Done;
    }

    method TakeNext(m: Snapshot, slot: int, now: int, starts: map<nat, Owner>, ghost s: Reader, ghost n: int)
      returns (r: Outcome)
      requires |m.slots| >= SLOTS && 0 <= s.sequence && TookOver(s, m, now, starts, n, State())
      requires slot == (s.sequence + n) % SLOTS
      modifies this`sequence, this`stream, this`ledger
      ensures r == Done ==> sequence == old(sequence) + 1 && TookOver(s, m, now, starts, n + 1, State())
      ensures r != Done ==> State() == old(State()) && StoppedAt(s, m, now, starts, n, r)
    {
      ghost var before := State();
      r := Take(m.slots[slot], now, starts);
      if r == Done {
        TookOverStep(s, m, now, starts, n, before, State());
      }
    }

    /** Reads what the guest produced since the last drain; two chunks always suffice. */
    method Drain(m: Snapshot, now: int, starts: map<nat, Owner>) returns (r: Outcome)
      requires |m.slots| >= SLOTS && 0 <= sequence
      modifies this`sequence, this`stream, this`ledger
      ensures DrainStep(old(State()), m, now, starts, State(), r)
    {
      if !started { return Done; }
      if m.error != 0 || m.pending != 0 || m.reserved != 0
         || !(sequence <= m.total <= MAX_RECORDS) || m.total - sequence > SLOTS {
        return BadHeader;
      }
      if closed && m.total != sequence { return AfterClosure; }
      if m.total == sequence { return Done; }
      if !(0 <= now < CLOCK_LIMIT) { return BadClock; }
      ghost var s := State();
      ghost var n := 0;
      var pass := 0;
      while pass < 2 && sequence != m.total
        invariant 0 <= pass <= 2 && sequence <= m.total
        invariant 0 <= n <= m.total - s.sequence && TookOver(s, m, now, starts, n, State())
        invariant pass == 1 ==> sequence == m.total || sequence % SLOTS == 0
        invariant pass == 2 ==> sequence == m.total
      {
        r, n := TakeChunk(m, now, starts, s, n);
        if r != Done {
          assert Advanced(s, m, now, starts, n, State(), r);
          return;
        }
        pass := pass + 1;
      }
      if sequence != m.total {
        assert false;
      }
      assert Advanced(s, m, now, starts, n, State(), Done);
      r := Done;
    }

    /** Closes the stream after a last drain; an empty trace is refused. */
    method Finish(m: Snapshot, now: int, starts: map<nat, Owner>) returns (r: Outcome)
      requires |m.slots| >= SLOTS && 0 <= sequence
      modifies this
      ensures !old(started) || old(closed) ==> State() == old(State()) && r == ClosureState
      ensures old(started) && !old(closed) ==>
        exists s' :: DrainStep(old(State()), m, now, starts, s', if r == EmptyClosure then Done else r)
          && (r == Done ==> s'.sequence != 0 && State() == s'.(closed := true))
          && (r != Done ==> State() == s')
    {
      if !started || closed { return ClosureState; }
      r := Drain(m, now, starts);
      ghost var s' := State();
      assert DrainStep(old(State()), m, now, starts, s', r) && r != EmptyClosure;
      if r != Done { return; }
      if sequence == 0 { return EmptyClosure; }
      closed := true;
    }
  }

  lemma ChunkEnd(start: int, index: int, count: int, total: int)
    requires 0 <= start <= total && index == start % SLOTS
    requires count == if total - start < SLOTS - index then total - start else SLOTS - index
    ensures start + count == total || (start + count) % SLOTS == 0
    ensures start % SLOTS == 0 && total - start <= SLOTS ==> start + count == total
  {
    if total - start >= SLOTS - index {
      assert start + (SLOTS - index) == SLOTS * (start / SLOTS + 1);
    }
  }

  lemma SlotOf(start: int, index: int, offset: int)
    requires 0 <= start && index == start % SLOTS && 0 <= offset && index + offset < SLOTS
    ensures (start + offset) % SLOTS == index + offset
  {
  }

  // ----- The producer's side

  /** The ring holds the last records of what was produced so far. */
  ghost predicate Represents(m: Snapshot, produced: seq<Record>) {
    |m.slots| >= SLOTS && m.total == |produced| && forall k :: InSlot(m.slots, produced, k)
  }

  /** Record number k + 1 is still in its slot, unless it is more than a ring old. */
  ghost predicate InSlot(slots: seq<Record>, produced: seq<Record>, k: int)
    requires |slots| >= SLOTS
  {
    0 <= k < |produced| && |produced| - SLOTS <= k ==> slots[k % SLOTS] == produced[k]
  }

  /** Writing record number total + 1 into its slot. */
  function Produce(m: Snapshot, record: Record): Snapshot
    requires |m.slots| >= SLOTS
  {
    m.(total := m.total + 1, slots := m.slots[m.total % SLOTS := record])
  }

  lemma ProduceRepresents(m: Snapshot, produced: seq<Record>, record: Record)
    requires Represents(m, produced)
    ensures Represents(Produce(m, record), produced + [record])
  {
    forall k ensures InSlot(Produce(m, record).slots, produced + [record], k) {
      assert InSlot(m.slots, produced, k);
      if 0 <= k < |produced| < k + SLOTS {
        DifferentSlots(k, |produced|);
      }
    }
  }

  lemma DifferentSlots(k: int, n: int)
    requires 0 <= k < n < k + SLOTS
    ensures k % SLOTS != n % SLOTS
  {
  }

  /** What a reader less than a ring behind finds is exactly what it has not seen. */
  lemma {:induction false} WindowIsUnseen(m: Snapshot, produced: seq<Record>, sequence: int, n: nat)
    requires Represents(m, produced) && 0 <= sequence && sequence + n <= |produced| && |produced| - sequence <= SLOTS
    ensures Window(m.slots, sequence, n) == produced[sequence..sequence + n]
  {
    if n > 0 {
      WindowIsUnseen(m, produced, sequence, n - 1);
      assert InSlot(m.slots, produced, sequence + n - 1);
      assert produced[sequence..sequence + n] == produced[sequence..sequence + n - 1] + [produced[sequence + n - 1]];
    }
  }

  lemma {:induction false} EventsCount(rs: seq<Record>)
    ensures |Events(rs)| == |rs|
  {
    if rs != [] {
      EventsCount(rs[..|rs| - 1]);
    }
  }

  lemma {:induction false} EventAt(rs: seq<Record>, k: nat)
    requires k < |rs|
    ensures |Events(rs)| == |rs| && Events(rs)[k] == EventOf(rs[k])
  {
    EventsCount(rs[..|rs| - 1]);
    if k < |rs| - 1 {
      EventAt(rs[..|rs| - 1], k);
    }
  }

  /** What a record has to be as number n of the trace, field by field. */
  predicate Sound(r: Record, n: int) {
    && 1 <= n <= 2048 && r.version == 1 && r.kind == 1 && r.index == n && r.slot <= 7
    && 1 <= r.gen <= 0x7FFF_FFFF && r.now <= 0xFFF_FFFF_FFFF_FFFF && 1 <= r.result <= 2
    && |r.words| == 19 && (r.words[16] >> 9) & 1 == 0 && (r.words[17] >> 9) & 1 == 0 && r.words[18] == 8
  }

  /** Its generation was started in this slot and still lives. */
  predicate OwnerLives(r: Record, starts: map<nat, Owner>, now: int) {
    r.gen in starts && starts[r.gen] == Owner(true, r.slot) && r.now <= now
  }

  lemma BitNine(word: bv64)
    ensures (word >> 9) & 1 == 0 <==> !InterruptBit(word)
  {
  }

  lemma GoodMeans(r: Record, n: int, starts: map<nat, Owner>, now: int)
    ensures Good(r, n, starts, now) <==> Sound(r, n) && OwnerLives(r, starts, now)
  {
    if |r.words| == 19 {
      BitNine(r.words[16]);
      BitNine(r.words[17]);
    }
  }

  /** A ledger event tells who was charged when, the eight words before and the eight words after. */
  ghost predicate Tells(e: Event, r: Record) {
    && |r.words| == 19 && |e.before| == 8 && |e.after| == 8
    && e.slot == r.slot && e.gen == r.gen && e.now == r.now && e.result == r.result
    && forall j :: 0 <= j < 8 ==> e.before[j] == r.words[j] && e.after[j] == r.words[8 + j]
  }

  /** The reader has taken over a prefix of what was produced, once each and in order; its ledger tells exactly these. */
  ghost predicate InStep(s: Reader, produced: seq<Record>) {
    && 0 <= s.sequence <= |produced| && s.stream == produced[..s.sequence] && |s.ledger| == s.sequence
    && forall k :: 0 <= k < s.sequence ==> Entered(s.ledger[k], produced[k], k)
  }

  /** The event is that of a sound record, the one behind k others. */
  ghost predicate Entered(e: Event, r: Record, k: int) { Sound(r, k + 1) && Tells(e, r) }

  /** Whatever a drain meets, the stream stays a prefix of the produced records. */
  lemma DrainKeepsStep(s: Reader, m: Snapshot, now: int, starts: map<nat, Owner>, s': Reader, r: Outcome,
                       produced: seq<Record>)
    requires Represents(m, produced) && InStep(s, produced) && DrainStep(s, m, now, starts, s', r)
    ensures InStep(s', produced) && s.sequence <= s'.sequence && s'.started == s.started && s'.closed == s.closed
    ensures forall k :: s.sequence <= k < s'.sequence ==> OwnerLives(produced[k], starts, now)
  {
    var n := DrainCases(s, m, now, starts, s', r);
    if n >= 0 {
      AdvanceKeepsStep(s, m, now, starts, n, s', r, produced);
    }
  }

  predicate Trouble(m: Snapshot) { m.error != 0 || m.pending != 0 || m.reserved != 0 }

  /**
   * A drain that reports success has taken over all records. A ring in trouble,
   * or a reader more than a ring behind, is refused without skipping anything.
   */
  lemma DrainTakesAll(s: Reader, m: Snapshot, now: int, starts: map<nat, Owner>, s': Reader, r: Outcome,
                      produced: seq<Record>)
    requires Represents(m, produced) && InStep(s, produced) && DrainStep(s, m, now, starts, s', r)
    ensures s.started && r == Done ==> s'.stream == produced
    ensures s.started && (Trouble(m) || |produced| > 2048 || |produced| - s.sequence > 256) ==> s' == s && r == BadHeader
    ensures r != Incomplete
  {
    var n := DrainCases(s, m, now, starts, s', r);
    if n >= 0 {
      AdvanceKeepsStep(s, m, now, starts, n, s', r, produced);
    }
    if s'.sequence == |produced| {
      CaughtUp(s', produced);
    }
  }

  lemma CaughtUp(s: Reader, produced: seq<Record>)
    requires InStep(s, produced) && s.sequence == |produced|
    ensures s.stream == produced
  {
  }

  /** A drain either leaves the reader alone or advances it by n records. */
  lemma DrainCases(s: Reader, m: Snapshot, now: int, starts: map<nat, Owner>, s': Reader, r: Outcome) returns (n: int)
    requires |m.slots| >= SLOTS && 0 <= s.sequence && DrainStep(s, m, now, starts, s', r)
    ensures n < 0 ==> s' == s && r != Incomplete && (s.started && r == Done ==> m.total == s.sequence)
    ensures s.started && m.total - s.sequence > SLOTS ==> n < 0 && r == BadHeader
    ensures n >= 0 ==> Advanced(s, m, now, starts, n, s', r) && m.total - s.sequence <= SLOTS
  {
    if s.started && HeaderGood(s, m) && m.total != s.sequence && !s.closed && 0 <= now < CLOCK_LIMIT {
      n :| Advanced(s, m, now, starts, n, s', r);
    } else {
      n := -1;
    }
  }

  lemma AdvancedKeepsStep(s: Reader, m: Snapshot, now: int, starts: map<nat, Owner>, n: int, s': Reader, r: Outcome,
                          produced: seq<Record>)
    requires |m.slots| >= SLOTS && m.total == |produced| && InStep(s, produced)
    requires Advanced(s, m, now, starts, n, s', r)
    requires Window(m.slots, s.sequence, n) == produced[s.sequence..s.sequence + n]
    ensures InStep(s', produced) && s'.sequence == s.sequence + n
    ensures s'.started == s.started && s'.closed == s.closed && r != Incomplete
    ensures forall k :: s.sequence <= k < s'.sequence ==> OwnerLives(produced[k], starts, now)
    ensures r == Done ==> s'.sequence == |produced|
  {
    PrefixKeepsStep(s, Window(m.slots, s.sequence, n), s', produced, starts, now);
  }

  lemma AdvanceKeepsStep(s: Reader, m: Snapshot, now: int, starts: map<nat, Owner>, n: int, s': Reader, r: Outcome,
                         produced: seq<Record>)
    requires Represents(m, produced) && InStep(s, produced)
    requires Advanced(s, m, now, starts, n, s', r) && m.total - s.sequence <= SLOTS
    ensures InStep(s', produced) && s'.sequence == s.sequence + n
    ensures s'.started == s.started && s'.closed == s.closed && r != Incomplete
    ensures forall k :: s.sequence <= k < s'.sequence ==> OwnerLives(produced[k], starts, now)
    ensures r == Done ==> s'.sequence == |produced|
  {
    WindowIsUnseen(m, produced, s.sequence, n);
    AdvancedKeepsStep(s, m, now, starts, n, s', r, produced);
  }

  /** Taking over the next unseen records keeps the reader in step. */
  lemma PrefixKeepsStep(s: Reader, w: seq<Record>, s': Reader, produced: seq<Record>, starts: map<nat, Owner>, now: int)
    requires InStep(s, produced) && s.sequence + |w| <= |produced| && AllGood(w, s.sequence, starts, now)
    requires w == produced[s.sequence..s.sequence + |w|]
    requires s' == s.(sequence := s.sequence + |w|, stream := s.stream + w, ledger := s.ledger + Events(w))
    ensures InStep(s', produced)
    ensures forall k :: s.sequence <= k < s'.sequence ==> OwnerLives(produced[k], starts, now)
  {
    PrefixGrows(produced, s.sequence, |w|);
    EventsCount(w);
    forall k | s.sequence <= k < s.sequence + |w|
      ensures Entered(s'.ledger[k], produced[k], k) && OwnerLives(produced[k], starts, now)
    {
      Behind(s.ledger, Events(w), k);
      Behind(produced[..s.sequence], w, k);
      NextEntered(w, s.sequence, starts, now, k - s.sequence, k);
    }
  }

  lemma Behind<T>(s: seq<T>, t: seq<T>, k: int)
    requires |s| <= k < |s| + |t|
    ensures (s + t)[k] == t[k - |s|]
  {
  }

  lemma NextEntered(w: seq<Record>, sequence: int, starts: map<nat, Owner>, now: int, j: nat, k: int)
    requires j < |w| && AllGood(w, sequence, starts, now) && k == sequence + j
    ensures |Events(w)| == |w| && Entered(Events(w)[j], w[j], k) && OwnerLives(w[j], starts, now)
  {
    assert GoodAt(w, sequence, starts, now, j);
    GoodMeans(w[j], k + 1, starts, now);
    EventAt(w, j);
  }

  lemma PrefixGrows<T>(s: seq<T>, i: int, n: int)
    requires 0 <= i && 0 <= n && i + n <= |s|
    ensures s[..i] + s[i..i + n] == s[..i + n] && s[..|s|] == s
  {
  }

  lemma NextIsGood(m: Snapshot, produced: seq<Record>, sequence: int, starts: map<nat, Owner>, now: int, n: int)
    requires Represents(m, produced) && 0 <= sequence && 0 <= n && sequence + n < |produced|
    requires |produced| - sequence <= SLOTS
    requires forall k :: sequence <= k < |produced| ==> Good(produced[k], k + 1, starts, now)
    ensures Good(m.slots[(sequence + n) % SLOTS], sequence + n + 1, starts, now)
  {
    assert InSlot(m.slots, produced, sequence + n);
  }

  /** No good record stops a drain. */
  lemma GoodAdvances(s: Reader, m: Snapshot, now: int, starts: map<nat, Owner>, n: int, s': Reader, r: Outcome,
                     produced: seq<Record>)
    requires Represents(m, produced) && 0 <= s.sequence && Advanced(s, m, now, starts, n, s', r)
    requires |produced| - s.sequence <= SLOTS
    requires forall k :: s.sequence <= k < |produced| ==> Good(produced[k], k + 1, starts, now)
    ensures r == Done
  {
    if n < m.total - s.sequence {
      NextIsGood(m, produced, s.sequence, starts, now, n);
    }
  }

  /** A drain succeeds when the header is in order and all unseen records are sound and have live owners. */
  lemma GoodRecordsDrain(s: Reader, m: Snapshot, now: int, starts: map<nat, Owner>, s': Reader, r: Outcome,
                         produced: seq<Record>)
    requires Represents(m, produced) && InStep(s, produced) && DrainStep(s, m, now, starts, s', r)
    requires s.started && !s.closed && 0 <= now <= 0xFFF_FFFF_FFFF_FFFF
    requires !Trouble(m) && |produced| <= 2048 && |produced| - s.sequence <= 256
    requires forall k :: s.sequence <= k < |produced| ==> Sound(produced[k], k + 1) && OwnerLives(produced[k], starts, now)
    ensures r == Done && s'.stream == produced
  {
    forall k | s.sequence <= k < |produced| ensures Good(produced[k], k + 1, starts, now) {
      GoodMeans(produced[k], k + 1, starts, now);
    }
    if m.total != s.sequence {
      var n :| Advanced(s, m, now, starts, n, s', r);
      GoodAdvances(s, m, now, starts, n, s', r, produced);
    }
    DrainTakesAll(s, m, now, starts, s', r, produced);
  }

  /** A schedule: the guest writes one record, or the halted guest's ring is drained. */
  datatype Action = Wrote(record: Record) | Drained(now: int, starts: map<nat, Owner>, after: Reader, result: Outcome)

  /** Ring, reader and history after one action. */
  function RingAfter(m: Snapshot, a: Action): Snapshot
    requires |m.slots| >= SLOTS
  {
    if a.Wrote? then Produce(m, a.record) else m
  }

  function ReaderThen(s: Reader, a: Action): Reader { if a.Wrote? then s else a.after }

  function Adds(a: Action): seq<Record> { if a.Wrote? then [a.record] else [] }

  ghost predicate Possible(s: Reader, m: Snapshot, a: Action) {
    |m.slots| >= SLOTS && 0 <= s.sequence && (a.Drained? ==> DrainStep(s, m, a.now, a.starts, a.after, a.result))
  }

  ghost predicate Schedule(s: Reader, m: Snapshot, actions: seq<Action>)
    decreases |actions|
  {
    actions == [] ||
    (Possible(s, m, actions[0]) && Schedule(ReaderThen(s, actions[0]), RingAfter(m, actions[0]), actions[1..]))
  }

  function Written(actions: seq<Action>): seq<Record> {
    if actions == [] then [] else Adds(actions[0]) + Written(actions[1..])
  }

  ghost function ReaderAfter(s: Reader, actions: seq<Action>): Reader
    decreases |actions|
  {
    if actions == [] then s else ReaderAfter(ReaderThen(s, actions[0]), actions[1..])
  }

  lemma ActionKeepsStep(s: Reader, m: Snapshot, a: Action, produced: seq<Record>)
    requires Possible(s, m, a) && Represents(m, produced) && InStep(s, produced)
    ensures Represents(RingAfter(m, a), produced + Adds(a)) && InStep(ReaderThen(s, a), produced + Adds(a))
  {
    if a.Wrote? {
      ProduceRepresents(m, produced, a.record);
      assert (produced + [a.record])[..s.sequence] == produced[..s.sequence];
    } else {
      DrainKeepsStep(s, m, a.now, a.starts, a.after, a.result, produced);
      assert produced + [] == produced;
    }
  }

  /** For every schedule the stream is a prefix of all that was written; nothing is lost, doubled or reordered. */
  lemma {:induction false} ScheduleKeepsStep(s: Reader, m: Snapshot, actions: seq<Action>, produced: seq<Record>)
    requires Schedule(s, m, actions) && Represents(m, produced) && InStep(s, produced)
    ensures InStep(ReaderAfter(s, actions), produced + Written(actions))
    decreases |actions|
  {
    if actions == [] {
      assert produced + [] == produced;
    } else {
      var a, rest := actions[0], actions[1..];
      ActionKeepsStep(s, m, a, produced);
      ScheduleKeepsStep(ReaderThen(s, a), RingAfter(m, a), rest, produced + Adds(a));
      assert produced + Adds(a) + Written(rest) == produced + (Adds(a) + Written(rest));
    }
  }
}
