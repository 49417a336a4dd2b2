/** What the segmented log means: the live records, contiguous in id, and how full the segments are. */
module LogSpec {
  import opened Bytes

  const SEGMENT_SIZE: nat := 65536
  const INITIAL_SEGMENTS: nat := 8
  const MAX_SEGMENTS: nat := 0x4000_0000
  const HEADER_SIZE: nat := 20

  datatype LogError = EntryTooLarge | EntryNotFound | AllocationFailed | MaxSegmentsReached

  datatype Record = Record(timestamp: u64, payload: bytes)

  datatype Entry = Entry(id: nat, timestamp: u64, payload: bytes)

  /** What an append comes to: an id, an error, or an out-of-bounds panic. */
  datatype Appended = Id(id: nat) | Failed(error: LogError) | Panicked

  /** The live records have the ids `first`, `first + 1`, ...; `written` counts every byte ever appended. */
  datatype Log = Log(first: nat, live: seq<Record>, active: nat, cursor: nat, segments: nat, written: nat) {
    function NextId(): nat {
      first + |live|
    }

    /** False once a segment could not be allocated: `active` then points past the last segment. */
    predicate Usable() {
      active < segments
    }

    predicate Live(id: nat) {
      first <= id < NextId()
    }

    function EntryAt(id: nat): Entry
      requires Live(id)
    {
      Entry(id, live[id - first].timestamp, live[id - first].payload)
    }
  }

  const EMPTY: Log := Log(1, [], 0, 0, INITIAL_SEGMENTS, 0)

  function Size(payload: bytes): nat {
    HEADER_SIZE + |payload|
  }

  /** `alloc(n)` says whether the attempt to allocate a segment succeeds while there are `n`. */
  type Allocator = nat -> bool

  /** The log once the writer stands where a record of `size` bytes goes, moved to the next segment if need be. */
  function Placed(s: Log, size: nat, alloc: Allocator): Log {
    if s.cursor + size <= SEGMENT_SIZE then s
    else if s.active + 1 >= s.segments && s.segments < MAX_SEGMENTS && alloc(s.segments) then
      s.(active := s.active + 1, cursor := 0, segments := s.segments + 1)
    else s.(active := s.active + 1, cursor := 0)
  }

  function Outcome(s: Log, payload: bytes, alloc: Allocator): Appended {
    if Size(payload) > SEGMENT_SIZE then Failed(EntryTooLarge)
    else if Placed(s, Size(payload), alloc).Usable() then Id(s.NextId())
    else if s.cursor + Size(payload) <= SEGMENT_SIZE then Panicked
    else if s.segments >= MAX_SEGMENTS then Failed(MaxSegmentsReached)
    else Failed(AllocationFailed)
  }

  function Append(s: Log, timestamp: u64, payload: bytes, alloc: Allocator): Log {
    if Size(payload) > SEGMENT_SIZE then s
    else
      var p := Placed(s, Size(payload), alloc);
      if p.Usable() then
        p.(live := p.live + [Record(timestamp, payload)], cursor := p.cursor + Size(payload), written := p.written + Size(payload))
      else p
  }

  /** The ways an append can go, once the writer stands where the record goes. */
  lemma AppendCases(s: Log, timestamp: u64, payload: bytes, alloc: Allocator)
    ensures var n := Size(payload); var p := Placed(s, n, alloc); var a, o := Append(s, timestamp, payload, alloc), Outcome(s, payload, alloc);
            if n > SEGMENT_SIZE then a == s && o == Failed(EntryTooLarge)
            else if p.Usable() then
              && o == Id(s.NextId())
              && a == p.(live := p.live + [Record(timestamp, payload)], cursor := p.cursor + n, written := p.written + n)
            else
              && a == p
              && o == if s.cursor + n <= SEGMENT_SIZE then Panicked
                      else Failed(if s.segments >= MAX_SEGMENTS then MaxSegmentsReached else AllocationFailed)
  {
  }

  function Read(s: Log, id: nat): Result<Entry, LogError> {
    if s.Live(id) then Ok(s.EntryAt(id)) else Err(EntryNotFound)
  }

  /** The live entries with ids from `lo` up to but not including `hi`. */
  function Between(s: Log, lo: nat, hi: nat): (r: seq<Entry>)
    requires s.first <= lo <= hi <= s.NextId()
    ensures |r| == hi - lo
    ensures forall i :: 0 <= i < |r| ==> r[i] == s.EntryAt(lo + i)
  {
    seq(hi - lo, i requires 0 <= i < hi - lo => s.EntryAt(lo + i))
  }

  lemma BetweenSplit(s: Log, lo: nat, hi: nat)
    requires s.first <= lo < hi <= s.NextId()
    ensures Between(s, lo, hi) == [s.EntryAt(lo)] + Between(s, lo + 1, hi)
  {
  }

  function ReadRange(s: Log, start: nat, end: nat): seq<Entry> {
    var lo, hi := if start < s.first then s.first else start, if end + 1 < s.NextId() then end + 1 else s.NextId();
    if lo <= hi then Between(s, lo, hi) else []
  }

  /** How many records `Trim` removes. */
  function Excess(s: Log, cutoff: nat): (n: nat)
    ensures n <= |s.live|
  {
    if cutoff <= s.first then 0 else if cutoff < s.NextId() then cutoff - s.first else |s.live|
  }

  function Trim(s: Log, cutoff: nat): Log {
    s.(first := s.first + Excess(s, cutoff), live := s.live[Excess(s, cutoff)..])
  }

  function Ids(lo: nat, n: nat): (ids: seq<nat>)
    ensures |ids| == n && forall i :: 0 <= i < n ==> ids[i] == lo + i
  {
    seq(n, i => lo + i)
  }

  lemma IdsMembers(lo: nat, n: nat)
    ensures forall id: nat :: id in Ids(lo, n) <==> lo <= id < lo + n
  {
    forall id: nat | lo <= id < lo + n ensures id in Ids(lo, n) {
      assert Ids(lo, n)[id - lo] == id;
    }
  }

  /** The writer stands inside a segment that exists, unless an allocation failed; and next-fit packing
      leaves at most every other segment's worth of space unused. Ids stay far below the limit of `u64`. */
  ghost predicate WellPacked(s: Log) {
    && s.first >= 1 && s.cursor <= SEGMENT_SIZE && s.active <= s.segments
    && INITIAL_SEGMENTS <= s.segments <= MAX_SEGMENTS
    && (s.Usable() ==> s.segments == (if s.active < INITIAL_SEGMENTS then INITIAL_SEGMENTS else s.active + 1))
    && (s.Usable() ==> s.active * SEGMENT_SIZE + s.cursor <= 2 * s.written)
    && (!s.Usable() ==> s.cursor == 0)
    && HEADER_SIZE * (s.NextId() - 1) <= s.written <= s.active * SEGMENT_SIZE + s.cursor
    && s.NextId() < U64_MAX
  }

  lemma AppendKeepsPacking(s: Log, timestamp: u64, payload: bytes, alloc: Allocator)
    requires WellPacked(s)
    ensures WellPacked(Append(s, timestamp, payload, alloc))
  {
  }

  lemma TrimKeepsPacking(s: Log, cutoff: nat)
    requires WellPacked(s)
    ensures WellPacked(Trim(s, cutoff))
  {
  }

  // ---- every run of the log ----

  datatype Op = OpAppend(timestamp: u64, payload: bytes, alloc: Allocator) | OpTrim(cutoff: nat)

  function Step(s: Log, op: Op): Log {
    match op
    case OpAppend(ts, p, alloc) => Append(s, ts, p, alloc)
    case OpTrim(cutoff) => Trim(s, cutoff)
  }

  function Run(ops: seq<Op>): Log {
    if ops == [] then EMPTY else Step(Run(ops[..|ops| - 1]), ops[|ops| - 1])
  }

  /** Every record ever accepted, in order. */
  function History(ops: seq<Op>): seq<Record> {
    if ops == [] then []
    else
      var before, op := ops[..|ops| - 1], ops[|ops| - 1];
      History(before) + Accepted(Run(before), op)
  }

  /** `s` holds exactly the records `h`, numbered from 1, that have not been trimmed. */
  ghost predicate Refines(s: Log, h: seq<Record>) {
    WellPacked(s) && s.NextId() == |h| + 1 && s.live == h[s.first - 1..]
  }

  function Accepted(s: Log, op: Op): seq<Record> {
    if op.OpAppend? && Outcome(s, op.payload, op.alloc).Id? then [Record(op.timestamp, op.payload)] else []
  }

  lemma AppendRefines(s: Log, h: seq<Record>, timestamp: u64, payload: bytes, alloc: Allocator)
    requires Refines(s, h)
    ensures Refines(Append(s, timestamp, payload, alloc), h + Accepted(s, OpAppend(timestamp, payload, alloc)))
  {
    AppendKeepsPacking(s, timestamp, payload, alloc);
    if Outcome(s, payload, alloc).Id? {
      var r := Record(timestamp, payload);
      assert (h + [r])[s.first - 1..] == h[s.first - 1..] + [r];
    } else {
      assert h + [] == h;
    }
  }

  lemma TrimRefines(s: Log, h: seq<Record>, cutoff: nat)
    requires Refines(s, h)
    ensures Refines(Trim(s, cutoff), h)
  {
    var n := Excess(s, cutoff);
    assert h[s.first - 1..][n..] == h[s.first + n - 1..];
  }

  /** Over every run the packing bound holds, ids are handed out without gaps from 1, and the live
      records are exactly the accepted ones from `first` on. */
  lemma {:induction false} RunRefinesHistory(ops: seq<Op>)
    ensures Refines(Run(ops), History(ops))
  {
    if ops != [] {
      var before, op := ops[..|ops| - 1], ops[|ops| - 1];
      RunRefinesHistory(before);
      hide Refines, Append, Trim, Outcome;
      match op
      case OpAppend(ts, p, alloc) => AppendRefines(Run(before), History(before), ts, p, alloc);
      case OpTrim(cutoff) =>
        TrimRefines(Run(before), History(before), cutoff);
        assert History(before) + [] == History(before);
    }
  }

  /** Next-fit space bound: the segments passed so far hold at most twice the bytes ever written. */
  lemma RunSpaceBound(ops: seq<Op>)
    requires Run(ops).Usable()
    ensures Run(ops).active * SEGMENT_SIZE <= 2 * Run(ops).written
    ensures Run(ops).segments == if Run(ops).active < INITIAL_SEGMENTS then INITIAL_SEGMENTS else Run(ops).active + 1
  {
    RunRefinesHistory(ops);
  }

  /** After a failed allocation no later run makes the log usable again: every append of a record that fits
      a segment panics, and no record is accepted. */
  lemma {:induction false} FailedAllocationIsForever(before: seq<Op>, after: seq<Op>)
    requires !Run(before).Usable()
    ensures !Run(before + after).Usable()
    ensures History(before + after) == History(before)
    ensures forall p: bytes, alloc: Allocator :: Size(p) <= SEGMENT_SIZE ==> Outcome(Run(before + after), p, alloc) == Panicked
  {
    if after == [] {
      assert before + after == before;
    } else {
      var shorter, op := after[..|after| - 1], after[|after| - 1];
      assert (before + after)[..|before + after| - 1] == before + shorter;
      FailedAllocationIsForever(before, shorter);
      RunRefinesHistory(before + shorter);
      StuckStep(Run(before + shorter), op);
      hide Step, Accepted, Outcome;
      assert History(before + shorter) + [] == History(before);
    }
    RunRefinesHistory(before + after);
    StuckOutcome(Run(before + after));
  }

  /** No segment can be had. */
  const NEVER: Allocator := _ => false

  function FullRecord(): Record {
    Record(0, seq(SEGMENT_SIZE - HEADER_SIZE, _ => 0))
  }

  /** `n` appends of a full segment each, with no allocation granted. */
  function FullSegments(n: nat): (ops: seq<Op>)
    ensures |ops| == n
  {
    if n == 0 then [] else FullSegments(n - 1) + [OpAppend(0, FullRecord().payload, NEVER)]
  }

  lemma FullSegmentsStep(n: nat)
    requires n > 0
    ensures Run(FullSegments(n)) == Append(Run(FullSegments(n - 1)), FullRecord().timestamp, FullRecord().payload, NEVER)
  {
    assert FullSegments(n)[..n - 1] == FullSegments(n - 1);
  }

  lemma {:induction false} FillInitial(n: nat)
    requires n <= INITIAL_SEGMENTS
    ensures var s := Run(FullSegments(n));
            s.Usable() && s.segments == INITIAL_SEGMENTS && (n > 0 ==> s.active == n - 1 && s.cursor == SEGMENT_SIZE)
    decreases n
  {
    if n > 0 {
      FillInitial(n - 1);
      FullSegmentsStep(n);
      hide Run;
      if n == 1 {
        assert Run(FullSegments(0)) == EMPTY by {
          NothingRun();
        }
      }
    }
  }

  lemma NothingRun()
    ensures Run(FullSegments(0)) == EMPTY
  {
  }

  /** Such a log is reached: the initial segments filled one record each, the ninth segment refused. */
  lemma FailedAllocationReached()
    ensures !Run(FullSegments(INITIAL_SEGMENTS + 1)).Usable()
  {
    FillInitial(INITIAL_SEGMENTS);
    FullSegmentsStep(INITIAL_SEGMENTS + 1);
    hide Run;
  }

  lemma StuckOutcome(s: Log)
    requires WellPacked(s) && !s.Usable()
    ensures forall p: bytes, alloc: Allocator :: Size(p) <= SEGMENT_SIZE ==> Outcome(s, p, alloc) == Panicked
  {
  }

  lemma StuckStep(s: Log, op: Op)
    requires WellPacked(s) && !s.Usable()
    ensures !Step(s, op).Usable() && Accepted(s, op) == []
  {
  }

  // ---- what is accepted ----

  /** The record fits a segment, no allocation has failed before, and the segment it needs is there or can be had. */
  predicate Takes(s: Log, payload: bytes, alloc: Allocator) {
    && Size(payload) <= SEGMENT_SIZE && s.Usable()
    && (s.cursor + Size(payload) > SEGMENT_SIZE && s.active + 1 >= s.segments ==> s.segments < MAX_SEGMENTS && alloc(s.segments))
  }

  lemma AcceptedIff(s: Log, payload: bytes, alloc: Allocator)
    ensures Outcome(s, payload, alloc).Id? <==> Takes(s, payload, alloc)
  {
  }

  /** Which refusal an append meets: too large, whatever the log; out of bounds, after a failed allocation; too many
      segments, or no memory, when a new one is needed. */
  lemma RefusalIff(s: Log, payload: bytes, alloc: Allocator)
    requires WellPacked(s)
    ensures Outcome(s, payload, alloc) == Failed(EntryTooLarge) <==> |payload| > 65516
    ensures Outcome(s, payload, alloc) == Panicked <==> |payload| <= 65516 && !s.Usable()
    ensures var full := |payload| <= 65516 && s.Usable() && s.cursor + 20 + |payload| > 65536 && s.active + 1 == s.segments;
            && (Outcome(s, payload, alloc) == Failed(MaxSegmentsReached) <==> full && s.segments == 0x4000_0000)
            && (Outcome(s, payload, alloc) == Failed(AllocationFailed) <==> full && s.segments < 0x4000_0000 && !alloc(s.segments))
    ensures Outcome(s, payload, alloc) != Failed(EntryNotFound)
  {
  }

  /** A trim takes the ids below the cutoff, and no other. */
  lemma TrimKeepsIff(s: Log, cutoff: nat, id: nat)
    ensures Read(Trim(s, cutoff), id) == (if id < cutoff then Err(EntryNotFound) else Read(s, id))
    ensures Trim(s, cutoff).NextId() == s.NextId()
  {
  }

  /** The writer behind one more record of `n` bytes. */
  function Behind(s: Log, n: nat): Log {
    if s.cursor + n <= SEGMENT_SIZE then s.(cursor := s.cursor + n)
    else s.(active := s.active + 1, cursor := n, segments := if s.active + 1 >= s.segments then s.segments + 1 else s.segments)
  }

  /** Every record is taken in its turn: a calculation on sizes and the writer's position. */
  predicate TakesAll(s: Log, rs: seq<Record>, alloc: Allocator)
    decreases |rs|
  {
    rs == [] || (Takes(s, rs[0].payload, alloc) && TakesAll(Behind(s, Size(rs[0].payload)), rs[1..], alloc))
  }

  predicate SamePlace(s: Log, t: Log) {
    s.active == t.active && s.cursor == t.cursor && s.segments == t.segments
  }

  lemma {:induction false} TakesAllSame(s: Log, t: Log, rs: seq<Record>, alloc: Allocator)
    requires SamePlace(s, t)
    ensures TakesAll(s, rs, alloc) == TakesAll(t, rs, alloc)
    decreases |rs|
  {
    if rs != [] {
      TakesAllSame(Behind(s, Size(rs[0].payload)), Behind(t, Size(rs[0].payload)), rs[1..], alloc);
    }
  }

  lemma TakenIsBehind(s: Log, r: Record, alloc: Allocator)
    requires Takes(s, r.payload, alloc)
    ensures SamePlace(Append(s, r.timestamp, r.payload, alloc), Behind(s, Size(r.payload)))
  {
  }

  /** Where segments can be had, only records too large for one are not taken. */
  lemma {:induction false} OnlyLargeNotTaken(s: Log, rs: seq<Record>, alloc: Allocator)
    requires s.Usable() && s.segments + |rs| <= MAX_SEGMENTS && forall n :: s.segments <= n < s.segments + |rs| ==> alloc(n)
    ensures TakesAll(s, rs, alloc) <==> forall i :: 0 <= i < |rs| ==> Size(rs[i].payload) <= SEGMENT_SIZE
    decreases |rs|
  {
    if rs != [] {
      OnlyLargeNotTaken(Behind(s, Size(rs[0].payload)), rs[1..], alloc);
    }
  }

  /** A range read is the per-id reads, in id order, without the misses. */
  lemma {:induction false} ReadRangeIsReads(s: Log, start: nat, end: nat)
    requires start <= end + 1
    ensures ReadRange(s, start, end) == Hits(s, start, end + 1)
    decreases end + 1 - start
  {
    if start <= end {
      ReadRangeIsReads(s, start + 1, end);
    }
  }

  function Hits(s: Log, lo: nat, hi: nat): seq<Entry>
    requires lo <= hi
    decreases hi - lo
  {
    if lo == hi then []
    else (if Read(s, lo).Ok? then [Read(s, lo).value] else []) + Hits(s, lo + 1, hi)
  }
}
