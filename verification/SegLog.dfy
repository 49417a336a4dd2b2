/** The segmented log as it is built: records packed as bytes into 64 KB segments, found through an index. */
module SegLog {
  import opened Bytes
  import opened LogSpec

  datatype EntryLoc = EntryLoc(segment: nat, offset: nat, len: nat)

  function Encode(id: nat, r: Record): (s: bytes)
    ensures |s| == Size(r.payload)
  {
    ToLe(id, 8) + ToLe(r.timestamp, 8) + ToLe(|r.payload|, 4) + r.payload
  }

  /** `s` with `src` copied over it from position `at`. */
  function Patched(s: bytes, at: nat, src: bytes): (r: bytes)
    requires at + |src| <= |s|
    ensures |r| == |s|
  {
    s[..at] + src + s[at + |src|..]
  }

  lemma PatchedTwice(s: bytes, at: nat, a: bytes, b: bytes)
    requires at + |a| + |b| <= |s|
    ensures Patched(Patched(s, at, a), at + |a|, b) == Patched(s, at, a + b)
  {
  }

  /** What the reader decodes from a record's bytes is what the writer encoded. */
  lemma DecodeEncode(id: u64, r: Record)
    requires Size(r.payload) <= SEGMENT_SIZE
    ensures var s := Encode(id, r);
            && FromLe(s[..8]) == id && FromLe(s[8..16]) == r.timestamp
            && FromLe(s[16..20]) == |r.payload| && s[20..] == r.payload
  {
    var s := Encode(id, r);
    Le64(id);
    Le64(r.timestamp);
    Le32(|r.payload|);
    assert s[..8] == ToLe(id, 8);
    assert s[8..16] == ToLe(r.timestamp, 8);
    assert s[16..20] == ToLe(|r.payload|, 4);
    assert s[20..] == r.payload;
  }

  /** Record `a` ends, in segment order, before `b` starts. */
  predicate Precedes(a: EntryLoc, b: EntryLoc) {
    a.segment < b.segment || (a.segment == b.segment && a.offset + a.len <= b.offset)
  }

  ghost predicate Holds(mem: seq<bytes>, loc: EntryLoc, id: nat, r: Record) {
    && loc.segment < |mem| && loc.len == Size(r.payload) && loc.offset + loc.len <= |mem[loc.segment]|
    && mem[loc.segment][loc.offset..loc.offset + loc.len] == Encode(id, r)
  }

  /** The bytes, the index and the log they represent. */
  datatype Image = Image(mem: seq<bytes>, idx: map<nat, EntryLoc>, log: Log)

  ghost predicate Indexed(m: Image) {
    forall id: nat :: id in m.idx <==> m.log.Live(id)
  }

  /** Each live record's bytes are in bounds at its location. */
  ghost predicate Held(m: Image)
    requires Indexed(m)
  {
    forall id: nat :: m.log.Live(id) ==> Holds(m.mem, m.idx[id], id, m.log.live[id - m.log.first])
  }

  lemma HeldIntro(m: Image)
    requires Indexed(m) && forall id: nat :: m.log.Live(id) ==> Holds(m.mem, m.idx[id], id, m.log.live[id - m.log.first])
    ensures Held(m)
  {
  }

  lemma HeldElim(m: Image, id: nat)
    requires Indexed(m) && Held(m) && m.log.Live(id)
    ensures Holds(m.mem, m.idx[id], id, m.log.live[id - m.log.first]) && m.idx[id].segment < |m.mem|
  {
  }

  lemma HoldsFrame(mem: seq<bytes>, mem': seq<bytes>, loc: EntryLoc, id: nat, r: Record)
    requires Holds(mem, loc, id, r) && loc.segment < |mem| && loc.segment < |mem'| && mem'[loc.segment] == mem[loc.segment]
    ensures Holds(mem', loc, id, r)
  {
  }

  /** Locations follow the ids, and the writer stands behind them all. */
  ghost predicate Ordered(m: Image)
    requires Indexed(m)
  {
    && (forall id: nat, id': nat :: m.log.Live(id) && m.log.Live(id') && id < id' ==> Precedes(m.idx[id], m.idx[id']))
    && (forall id: nat :: m.log.Live(id) ==> Precedes(m.idx[id], EntryLoc(m.log.active, m.log.cursor, 0)))
  }

  ghost predicate Sized(mem: seq<bytes>) {
    forall i :: 0 <= i < |mem| ==> |mem[i]| == SEGMENT_SIZE
  }

  ghost predicate Laid(m: Image) {
    Indexed(m) && Held(m) && Ordered(m) && |m.mem| == m.log.segments && Sized(m.mem)
  }

  ghost predicate Inv(m: Image) {
    WellPacked(m.log) && Laid(m)
  }

  function Zeroed(): (s: bytes)
    ensures |s| == SEGMENT_SIZE && forall i :: 0 <= i < |s| ==> s[i] == 0
  {
    seq(SEGMENT_SIZE, _ => 0)
  }

  /** The image once the writer has moved to where a record of `size` bytes goes. */
  ghost function PlacedImage(m: Image, size: nat, alloc: Allocator): Image {
    var log := Placed(m.log, size, alloc);
    Image(if log.segments > m.log.segments then m.mem + [Zeroed()] else m.mem, m.idx, log)
  }

  lemma PlacedOrdered(m: Image, size: nat, alloc: Allocator)
    requires Laid(m)
    ensures var p := PlacedImage(m, size, alloc); Indexed(p) && Ordered(p) && |p.mem| == p.log.segments && Sized(p.mem)
  {
    hide Held;
    var p := PlacedImage(m, size, alloc);
    assert forall id: nat :: p.log.Live(id) <==> m.log.Live(id);
  }

  lemma PlacedLaid(m: Image, size: nat, alloc: Allocator)
    requires Laid(m)
    ensures Laid(PlacedImage(m, size, alloc))
  {
    hide Ordered, Sized, Held, Holds;
    PlacedOrdered(m, size, alloc);
    var p := PlacedImage(m, size, alloc);
    assert p.log.first == m.log.first && p.log.live == m.log.live && p.idx == m.idx && m.mem <= p.mem;
    hide Placed;
    forall id: nat | p.log.Live(id) ensures Holds(p.mem, p.idx[id], id, p.log.live[id - p.log.first]) {
      HeldElim(m, id);
      HoldsFrame(m.mem, p.mem, m.idx[id], id, m.log.live[id - m.log.first]);
    }
    HeldIntro(p);
  }

  /** The image once a record has been written at the cursor and entered in the index. */
  ghost function WrittenImage(m: Image, r: Record): Image
    requires m.log.Usable() && |m.mem| == m.log.segments && m.log.cursor + Size(r.payload) <= |m.mem[m.log.active]|
  {
    var log, n := m.log, Size(r.payload);
    Image(m.mem[log.active := Patched(m.mem[log.active], log.cursor, Encode(log.NextId(), r))],
          m.idx[log.NextId() := EntryLoc(log.active, log.cursor, n)],
          log.(live := log.live + [r], cursor := log.cursor + n, written := log.written + n))
  }

  /** Writing at the cursor disturbs no earlier record. */
  lemma WrittenHolds(m: Image, r: Record, id: nat)
    requires Laid(m) && m.log.Usable() && m.log.cursor + Size(r.payload) <= SEGMENT_SIZE && m.log.Live(id)
    ensures Holds(WrittenImage(m, r).mem, m.idx[id], id, m.log.live[id - m.log.first])
  {
    var loc, before, after := m.idx[id], m.mem[m.log.active], WrittenImage(m, r).mem[m.log.active];
    assert Precedes(loc, EntryLoc(m.log.active, m.log.cursor, 0));
    assert Holds(m.mem, loc, id, m.log.live[id - m.log.first]);
    if loc.segment == m.log.active {
      assert after[loc.offset..loc.offset + loc.len] == before[loc.offset..loc.offset + loc.len];
    }
  }

  lemma WrittenOrdered(m: Image, r: Record)
    requires Laid(m) && m.log.Usable() && m.log.cursor + Size(r.payload) <= SEGMENT_SIZE
    ensures var w := WrittenImage(m, r);
            && Indexed(w) && Ordered(w) && |w.mem| == w.log.segments && Sized(w.mem)
            && (forall id: nat :: w.log.Live(id) <==> m.log.Live(id) || id == m.log.NextId())
  {
    hide Held;
    var w, n := WrittenImage(m, r), m.log.NextId();
    assert forall id: nat :: w.log.Live(id) <==> m.log.Live(id) || id == n;
    assert forall id: nat :: m.log.Live(id) ==> w.idx[id] == m.idx[id];
  }

  lemma WrittenLaid(m: Image, r: Record)
    requires Laid(m) && m.log.Usable() && m.log.cursor + Size(r.payload) <= SEGMENT_SIZE
    ensures |m.mem| == m.log.segments && |m.mem[m.log.active]| == SEGMENT_SIZE && Laid(WrittenImage(m, r))
  {
    hide Held, Ordered;
    WrittenOrdered(m, r);
    var w, n := WrittenImage(m, r), m.log.NextId();
    forall id: nat | w.log.Live(id) ensures Holds(w.mem, w.idx[id], id, w.log.live[id - w.log.first]) {
      if id == n {
        var s := w.mem[m.log.active];
        assert s[m.log.cursor..m.log.cursor + Size(r.payload)] == Encode(n, r);
      } else {
        WrittenHolds(m, r, id);
      }
    }
    HeldIntro(w);
  }

  ghost function ZeroedBefore(mem: seq<bytes>, keep: nat): (z: seq<bytes>)
    ensures |z| == |mem|
    ensures forall i :: 0 <= i < |z| ==> z[i] == if i < keep then Zeroed() else mem[i]
  {
    seq(|mem|, i requires 0 <= i < |mem| => if i < keep then Zeroed() else mem[i])
  }

  /** The image after trimming: the index entries go, and segments before `keep` are zeroed. */
  ghost function TrimmedImage(m: Image, cutoff: nat, keep: nat): Image {
    Image(ZeroedBefore(m.mem, keep), map id | id in m.idx && cutoff <= id :: m.idx[id], Trim(m.log, cutoff))
  }

  lemma TrimmedOrdered(m: Image, cutoff: nat, keep: nat)
    requires Laid(m)
    ensures var t := TrimmedImage(m, cutoff, keep);
            && (forall id: nat :: t.log.Live(id) <==> m.log.Live(id) && cutoff <= id)
            && Indexed(t) && Ordered(t) && |t.mem| == t.log.segments && Sized(t.mem)
  {
    hide Held;
    var t := TrimmedImage(m, cutoff, keep);
    assert forall id: nat :: t.log.Live(id) <==> m.log.Live(id) && cutoff <= id;
  }

  /** Zeroing the segments before the first surviving record's alters no surviving record. */
  lemma TrimmedInv(m: Image, cutoff: nat, keep: nat)
    requires Inv(m)
    requires forall id: nat :: m.log.Live(id) && cutoff <= id ==> keep <= m.idx[id].segment
    ensures Inv(TrimmedImage(m, cutoff, keep))
  {
    hide Ordered, Sized, Held, Holds;
    TrimmedOrdered(m, cutoff, keep);
    var t := TrimmedImage(m, cutoff, keep);
    assert WellPacked(t.log);
    hide WellPacked;
    forall id: nat | t.log.Live(id) ensures Holds(t.mem, t.idx[id], id, t.log.live[id - t.log.first]) {
      assert t.log.live[id - t.log.first] == m.log.live[id - m.log.first];
      HeldElim(m, id);
      HoldsFrame(m.mem, t.mem, m.idx[id], id, m.log.live[id - m.log.first]);
    }
    HeldIntro(t);
  }

  /** `BTreeMap::range`: the keys from `lo` up to but not including `hi`, ascending. */
  function RangeKeys(keys: set<nat>, lo: nat, hi: nat): seq<nat>
    requires lo <= hi
    decreases hi - lo
  {
    if lo == hi then [] else (if lo in keys then [lo] else []) + RangeKeys(keys, lo + 1, hi)
  }

  function RangeSet(lo: nat, n: nat): (r: set<nat>)
    ensures |r| == n && forall id :: id in r <==> lo <= id < lo + n
  {
    if n == 0 then {} else RangeSet(lo, n - 1) + {lo + n - 1}
  }

  /** The index has as many entries as there are live records. */
  lemma IndexSize(m: Image)
    requires Indexed(m)
    ensures |m.idx| == |m.log.live|
  {
    assert m.idx.Keys == RangeSet(m.log.first, |m.log.live|);
    assert |m.idx.Keys| == |m.idx|;
  }

  lemma IdsFront(lo: nat, n: nat)
    requires n > 0
    ensures Ids(lo, n) == [lo] + Ids(lo + 1, n - 1)
  {
  }

  lemma IdsNone()
    ensures forall lo :: Ids(lo, 0) == []
  {
  }

  lemma {:induction false} RangeOfLive(m: Image, lo: nat, hi: nat)
    requires Indexed(m) && lo <= hi
    ensures var a := if lo < m.log.first then m.log.first else lo;
            var b := if hi < m.log.NextId() then hi else m.log.NextId();
            RangeKeys(m.idx.Keys, lo, hi) == Ids(a, if a <= b then b - a else 0)
    decreases hi - lo
  {
    hide Ids;
    if lo < hi {
      RangeOfLive(m, lo + 1, hi);
      if m.log.Live(lo) {
        var b := if hi < m.log.NextId() then hi else m.log.NextId();
        IdsFront(lo, b - lo);
      }
    }
    IdsNone();
  }

  /** The decoder, pointed at a live record, gives back that record. */
  lemma ReadBack(m: Image, id: nat)
    requires Inv(m)
    ensures id in m.idx <==> m.log.Live(id)
    ensures m.log.Live(id) ==>
              var r := m.log.live[id - m.log.first]; var loc := m.idx[id];
              && loc.segment < |m.mem| && loc.len == Size(r.payload) && loc.offset + loc.len <= |m.mem[loc.segment]|
              && var s, o := m.mem[loc.segment], loc.offset;
                 && s[o..o + loc.len] == Encode(id, r)
                 && FromLe(s[o..o + 8]) == id && FromLe(s[o + 8..o + 16]) == r.timestamp
                 && FromLe(s[o + 16..o + 20]) == |r.payload| && s[o + 20..o + 20 + |r.payload|] == r.payload
  {
    hide Held, Ordered, Sized;
    if m.log.Live(id) {
      HeldElim(m, id);
      var loc, r := m.idx[id], m.log.live[id - m.log.first];
      var s, o := m.mem[loc.segment], loc.offset;
      var e := s[o..o + loc.len];
      assert |s| == SEGMENT_SIZE by {
        SizedElim(m.mem, loc.segment);
      }
      DecodeEncode(id, r);
      SubSlice(s, o, loc.len, 0, 8);
      SubSlice(s, o, loc.len, 8, 16);
      SubSlice(s, o, loc.len, 16, 20);
      SubSlice(s, o, loc.len, 20, loc.len);
    }
  }

  lemma SizedElim(mem: seq<bytes>, i: nat)
    requires Sized(mem) && i < |mem|
    ensures |mem[i]| == SEGMENT_SIZE
  {
  }

  lemma RangeIds(m: Image, start: nat, end: nat)
    requires Inv(m) && start <= end
    ensures var ids, r := RangeKeys(m.idx.Keys, start, end + 1), LogSpec.ReadRange(m.log, start, end);
            |ids| == |r| && forall i :: 0 <= i < |r| ==> LogSpec.Read(m.log, ids[i]) == Ok(r[i])
  {
    hide Held, Ordered, Sized, WellPacked;
    RangeOfLive(m, start, end + 1);
    hide RangeKeys, Indexed;
    var ids, r := RangeKeys(m.idx.Keys, start, end + 1), LogSpec.ReadRange(m.log, start, end);
    forall i | 0 <= i < |r| ensures LogSpec.Read(m.log, ids[i]) == Ok(r[i]) {
    }
  }

  lemma RemovedIds(m: Image, cutoff: nat)
    requires Inv(m)
    ensures Indexed(m) && Sized(m.mem)
    ensures RangeKeys(m.idx.Keys, 0, cutoff) == Ids(m.log.first, Excess(m.log, cutoff))
  {
    RangeOfLive(m, 0, cutoff);
  }

  lemma RestIds(m: Image)
    requires Inv(m)
    ensures RangeKeys(m.idx.Keys, 0, U64_MAX + 1) == Ids(m.log.first, |m.log.live|)
    ensures m.log.live != [] ==> m.log.first in m.idx
  {
    RangeOfLive(m, 0, U64_MAX + 1);
    assert m.log.live != [] ==> m.log.Live(m.log.first);
  }

  /** The segment of the first record that survives a trim; no survivor lies in an earlier one. */
  ghost function FirstKept(m: Image, cutoff: nat): (keep: nat)
    requires Inv(m)
    ensures keep <= |m.mem|
    ensures forall id: nat :: m.log.Live(id) && cutoff <= id ==> keep <= m.idx[id].segment
    ensures var t := Trim(m.log, cutoff); keep == if t.live != [] then m.idx[t.first].segment else 0
  {
    var t := Trim(m.log, cutoff);
    if t.live == [] then 0
    else
      HeldElim(m, t.first);
      m.idx[t.first].segment
  }

  lemma PlacedFits(s: Log, size: nat, alloc: Allocator)
    requires size <= SEGMENT_SIZE
    ensures var p := Placed(s, size, alloc); p.cursor + size <= SEGMENT_SIZE && p.first == s.first && p.live == s.live && p.written == s.written
  {
  }

  lemma WriterInBounds(s: Log)
    requires WellPacked(s)
    ensures s.active <= s.segments && (s.active == s.segments ==> s.cursor == 0)
  {
  }

  /** `ptr::copy_nonoverlapping` into a segment. */
  method CopyInto(dst: array<byte>, at: nat, src: bytes)
    requires at + |src| <= dst.Length
    modifies dst
    ensures dst[..] == Patched(old(dst[..]), at, src)
  {
    for i := 0 to |src|
      invariant forall j :: 0 <= j < i ==> dst[at + j] == src[j]
      invariant forall j :: 0 <= j < dst.Length && !(at <= j < at + i) ==> dst[j] == old(dst[j])
    {
      dst[at + i] := src[i];
    }
  }

  /** The four copies that write a record. */
  method WriteRecord(dst: array<byte>, at: nat, id: nat, r: Record)
    requires at + Size(r.payload) <= dst.Length
    modifies dst
    ensures dst[..] == Patched(old(dst[..]), at, Encode(id, r))
  {
    ghost var s := dst[..];
    var a, b, c := ToLe(id, 8), ToLe(r.timestamp, 8), ToLe(|r.payload|, 4);
    CopyInto(dst, at, a);
    CopyInto(dst, at + 8, b);
    PatchedTwice(s, at, a, b);
    CopyInto(dst, at + 16, c);
    PatchedTwice(s, at, a + b, c);
    if |r.payload| > 0 {
      CopyInto(dst, at + HEADER_SIZE, r.payload);
      PatchedTwice(s, at, a + b + c, r.payload);
    } else {
      assert a + b + c + r.payload == a + b + c;
    }
  }

  /** `ptr::write_bytes(seg, 0, SEGMENT_SIZE)`. */
  method Zero(seg: array<byte>)
    requires seg.Length == SEGMENT_SIZE
    modifies seg
    ensures seg[..] == Zeroed()
  {
    for i := 0 to seg.Length
      invariant forall j :: 0 <= j < i ==> seg[j] == 0
    {
      seg[i] := 0;
    }
  }

  class SegLog {
    var segs: seq<array<byte>>
    var activeSeg: nat
    var writeCursor: nat
    var idx: map<nat, EntryLoc>
    var nextId: nat
    var entryCount: nat
    ghost var first: nat
    ghost var live: seq<Record>
    ghost var written: nat

    ghost function Mem(): (m: seq<bytes>)
      reads this, segs
      ensures |m| == |segs| && forall i :: 0 <= i < |m| ==> m[i] == segs[i][..]
    {
      seq(|segs|, i requires 0 <= i < |segs| reads this, segs => segs[i][..])
    }

    ghost function View(): Log
      reads this
    {
      Log(first, live, activeSeg, writeCursor, |segs|, written)
    }

    ghost function Img(): Image
      reads this, segs
    {
      Image(Mem(), idx, View())
    }

    ghost predicate Valid()
      reads this, segs
    {
      NoDup(segs) && Inv(Img()) && nextId == View().NextId() && entryCount == |live|
    }

    /** The segments, as objects. */
    ghost function Segments(): (r: set<object>)
      reads this
      ensures forall i :: 0 <= i < |segs| ==> segs[i] in r
    {
      assert forall i :: 0 <= i < |segs| ==> segs[i] in segs;
      set a: array<byte> | a in segs :: a as object
    }

    constructor ()
      ensures Valid() && View() == EMPTY && fresh(Segments())
    {
      segs, activeSeg, writeCursor, idx, nextId, entryCount := [], 0, 0, map[], 1, 0;
      first, live, written := 1, [], 0;
      new;
      for i := 0 to INITIAL_SEGMENTS
        invariant |segs| == i && NoDup(segs) && fresh(segs)
        invariant forall j :: 0 <= j < i ==> segs[j].Length == SEGMENT_SIZE
        invariant View() == EMPTY.(segments := i) && idx == map[] && nextId == 1 && entryCount == 0
      {
        var a := new byte[SEGMENT_SIZE](_ => 0);
        segs := segs + [a];
      }
    }

    /** Adds a zeroed segment, unless there are too many or the allocator refuses. */
    method AllocateSeg(alloc: Allocator) returns (r: Result<(), LogError>)
      requires NoDup(segs)
      modifies this`segs
      ensures r.Ok? <==> |old(segs)| < MAX_SEGMENTS && alloc(|old(segs)|)
      ensures r.Ok? ==> |segs| == |old(segs)| + 1 && segs == old(segs) + [segs[|old(segs)|]] && NoDup(segs) && fresh(segs[|old(segs)|])
      ensures r.Ok? ==> Mem() == old(Mem()) + [Zeroed()]
      ensures r.Err? ==> segs == old(segs) && r.error == if |segs| >= MAX_SEGMENTS then MaxSegmentsReached else AllocationFailed
    {
      if |segs| >= MAX_SEGMENTS {
        return Err(MaxSegmentsReached);
      }
      if !alloc(|segs|) {
        return Err(AllocationFailed);
      }
      var a := new byte[SEGMENT_SIZE](_ => 0);
      segs := segs + [a];
      assert a[..] == Zeroed();
      return Ok(());
    }

    /** Moves to the next segment when a record of `total` bytes does not fit the active one. */
    method MakeRoom(total: nat, alloc: Allocator) returns (r: Result<(), LogError>)
      requires Laid(Img()) && NoDup(segs)
      requires activeSeg <= |segs| && (activeSeg == |segs| ==> writeCursor + total <= SEGMENT_SIZE)
      modifies this`segs, this`activeSeg, this`writeCursor
      ensures NoDup(segs) && (forall i :: 0 <= i < |segs| ==> segs[i] in old(segs) || fresh(segs[i]))
      ensures Laid(Img()) && View() == Placed(old(View()), total, alloc)
      ensures r.Err? <==> old(writeCursor) + total > SEGMENT_SIZE && !View().Usable()
      ensures r.Err? ==> r.error == if old(|segs|) >= MAX_SEGMENTS then MaxSegmentsReached else AllocationFailed
    {
      hide Laid, NoDup, Zeroed;
      PlacedLaid(Img(), total, alloc);
      r := Ok(());
      if writeCursor + total > SEGMENT_SIZE {
        activeSeg := activeSeg + 1;
        writeCursor := 0;
        if activeSeg >= |segs| {
          r := AllocateSeg(alloc);
          assert forall i :: 0 <= i < |old(segs)| ==> segs[i] == old(segs)[i];
        }
      }
      assert Img() == PlacedImage(old(Img()), total, alloc);
    }

    /** Writes the record at the cursor and enters it in the index. */
    method WriteAtCursor(timestamp: u64, payload: bytes) returns (id: nat)
      requires Laid(Img()) && NoDup(segs) && nextId == View().NextId()
      requires View().Usable() && writeCursor + Size(payload) <= SEGMENT_SIZE
      modifies this`idx, this`writeCursor, this`nextId, this`entryCount, this`live, this`written, segs[activeSeg]
      ensures Laid(Img())
      ensures View() == old(View()).(live := old(live) + [Record(timestamp, payload)],
                                     cursor := old(writeCursor) + Size(payload), written := old(written) + Size(payload))
      ensures id == old(nextId) && nextId == id + 1 && entryCount == old(entryCount) + 1
    {
      WrittenLaid(Img(), Record(timestamp, payload));
      hide Laid;
      id := nextId;
      var dst := segs[activeSeg];
      WriteRecord(dst, writeCursor, id, Record(timestamp, payload));
      idx := idx[id := EntryLoc(activeSeg, writeCursor, Size(payload))];
      writeCursor := writeCursor + Size(payload);
      nextId := nextId + 1;
      entryCount := entryCount + 1;
      live := live + [Record(timestamp, payload)];
      written := written + Size(payload);
      assert Img() == WrittenImage(old(Img()), Record(timestamp, payload));
    }

    method Append(timestamp: u64, payload: bytes, alloc: Allocator) returns (r: Appended)
      requires Valid()
      modifies this, segs
      ensures Valid() && (forall i :: 0 <= i < |segs| ==> segs[i] in old(segs) || fresh(segs[i]))
      ensures View() == LogSpec.Append(old(View()), timestamp, payload, alloc)
      ensures r == Outcome(old(View()), payload, alloc)
    {
      hide Laid, NoDup, WellPacked, Placed, LogSpec.Append, Outcome;
      AppendCases(View(), timestamp, payload, alloc);
      var total := HEADER_SIZE + |payload|;
      if total > SEGMENT_SIZE {
        return Failed(EntryTooLarge);
      }
      WriterInBounds(View());
      AppendKeepsPacking(View(), timestamp, payload, alloc);
      PlacedFits(View(), total, alloc);
      var room := MakeRoom(total, alloc);
      if room.Err? {
        return Failed(room.error);
      }
      if activeSeg >= |segs| {
        return Panicked;
      }
      assert segs[activeSeg] in segs;
      var id := WriteAtCursor(timestamp, payload);
      assert View() == LogSpec.Append(old(View()), timestamp, payload, alloc);
      r := Id(id);
    }

    /** Decodes the record at the location the index gives. */
    method Read(entryId: nat) returns (r: Result<Entry, LogError>)
      requires Valid()
      ensures r == LogSpec.Read(View(), entryId)
    {
      hide Inv;
      ReadBack(Img(), entryId);
      if entryId !in idx {
        return Err(EntryNotFound);
      }
      var loc := idx[entryId];
      var src := segs[loc.segment];
      assert src[..] == Mem()[loc.segment];
      var o := loc.offset;
      assert src[o..o + 8] == src[..][o..o + 8] && src[o + 8..o + 16] == src[..][o + 8..o + 16];
      assert src[o + 16..o + 20] == src[..][o + 16..o + 20];
      var id := FromLe(src[o..o + 8]);
      var ts := FromLe(src[o + 8..o + 16]);
      var len := FromLe(src[o + 16..o + 20]);
      var payload := src[o + HEADER_SIZE..o + HEADER_SIZE + len];
      assert payload == src[..][o + HEADER_SIZE..o + HEADER_SIZE + len];
      r := Ok(Entry(id, ts, payload));
    }

    /** The bytes of a record, header included, exactly as appended. */
    method GetRawEntrySlice(entryId: nat) returns (r: Option<bytes>)
      requires Valid()
      ensures r == if View().Live(entryId) then Some(Encode(entryId, live[entryId - first])) else None
    {
      hide Inv;
      ReadBack(Img(), entryId);
      if entryId !in idx {
        return None;
      }
      var loc := idx[entryId];
      var src := segs[loc.segment];
      assert src[..] == Mem()[loc.segment];
      assert src[loc.offset..loc.offset + loc.len] == src[..][loc.offset..loc.offset + loc.len];
      r := Some(src[loc.offset..loc.offset + loc.len]);
    }

    method ReadRange(start: nat, end: nat) returns (r: seq<Entry>)
      requires Valid() && start <= end
      ensures r == LogSpec.ReadRange(View(), start, end)
    {
      hide Inv, LogSpec.ReadRange, RangeKeys;
      RangeIds(Img(), start, end);
      var ids := RangeKeys(idx.Keys, start, end + 1);
      r := [];
      ghost var whole := LogSpec.ReadRange(View(), start, end);
      for i := 0 to |ids|
        invariant r == whole[..i]
      {
        var e := Read(ids[i]);
        if e.Ok? {
          r := r + [e.value];
        }
      }
    }

    /** Removes the records below `cutoff` and zeroes the segments before the first survivor's. */
    method Trim(cutoff: nat) returns (removed: seq<nat>)
      requires Valid()
      modifies this`idx, this`entryCount, this`first, this`live, segs
      ensures Valid()
      ensures View() == LogSpec.Trim(old(View()), cutoff)
      ensures removed == Ids(old(first), Excess(old(View()), cutoff)) && entryCount == |idx|
    {
      hide Inv, RangeKeys;
      ghost var keep := FirstKept(Img(), cutoff);
      ghost var trimmed := TrimmedImage(Img(), cutoff, keep);
      TrimmedInv(Img(), cutoff, keep);
      RemovedIds(Img(), cutoff);
      RestIds(trimmed);
      removed := RangeKeys(idx.Keys, 0, cutoff);
      DropIds(removed, cutoff);
      assert idx == trimmed.idx;
      var rest := RangeKeys(idx.Keys, 0, U64_MAX + 1);
      first, live := first + |removed|, live[|removed|..];
      if |rest| > 0 {
        var firstLive := idx[rest[0]].segment;
        ZeroBefore(firstLive);
      } else {
        assert Mem() == ZeroedBefore(old(Mem()), 0);
      }
      assert Mem() == trimmed.mem;
      assert View() == trimmed.log;
      assert Img() == trimmed;
      CountIsIndexSize();
    }

    /** `entry_count` is the size of the index. */
    lemma CountIsIndexSize()
      requires Valid()
      ensures entryCount == |idx|
    {
      IndexSize(Img());
    }

    /** The loop that zeroes the segments no survivor lies in. */
    method ZeroBefore(keep: nat)
      requires NoDup(segs) && keep <= |segs| && Sized(Mem())
      modifies segs
      ensures Mem() == ZeroedBefore(old(Mem()), keep)
    {
      for i := 0 to keep
        invariant Mem() == ZeroedBefore(old(Mem()), i)
      {
        assert |old(Mem())[i]| == SEGMENT_SIZE;
        Zero(segs[i]);
      }
    }

    /** The loop that takes the removed ids out of the index. */
    method DropIds(removed: seq<nat>, ghost cutoff: nat)
      requires Indexed(Img()) && removed == Ids(first, Excess(View(), cutoff)) && entryCount == |live|
      modifies this`idx, this`entryCount
      ensures idx == map id | id in old(idx) && cutoff <= id :: old(idx)[id]
      ensures entryCount == |live| - |removed|
    {
      for i := 0 to |removed|
        invariant idx == map id | id in old(idx) && first + i <= id :: old(idx)[id]
        invariant entryCount == |live| - i
      {
        idx := idx - {removed[i]};
        entryCount := entryCount - 1;
      }
    }
  }
}
