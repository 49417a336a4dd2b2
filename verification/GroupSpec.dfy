/** What the group manager means: named logs, each behind a cache that must not be noticed. */
module GroupSpec {
  import opened Bytes
  import opened LogSpec
  import L = LruSpec

  const CACHE_CAP: nat := 100_000
  /** 30 seconds, in nanoseconds. */
  const CACHE_TTL: nat := 30_000_000_000

  datatype LogEntry = LogEntry(id: nat, timestamp: u64, len: nat, payload: bytes)

  type Cache = L.Cache<nat, LogEntry>

  /** `build_key`: a cache key from a group's name and an id. */
  type Hash = (string, nat) -> nat

  datatype Group = Group(log: Log, cache: Cache)

  datatype GroupError = GroupNotFound | GroupAlreadyExists | LogFailed(error: LogError) | Crashed

  const NEW_GROUP: Group := Group(EMPTY, [])

  function Cached(e: Entry): LogEntry {
    LogEntry(e.id, e.timestamp, |e.payload|, e.payload)
  }

  function Uncached(e: LogEntry): Entry {
    Entry(e.id, e.timestamp, e.payload)
  }

  function Refusal(o: Appended): GroupError
    requires !o.Id?
  {
    if o.Failed? then LogFailed(o.error) else Crashed
  }

  function Add(hash: Hash, name: string, g: Group, r: Record, alloc: Allocator, now: int): Group {
    var o, log := Outcome(g.log, r.payload, alloc), Append(g.log, r.timestamp, r.payload, alloc);
    if o.Id? then
      Group(log, L.Insert(g.cache, CACHE_CAP, hash(name, o.id), Cached(Entry(o.id, r.timestamp, r.payload)), now + CACHE_TTL))
    else g.(log := log)
  }

  /** Appends in turn, stopping at the first that is refused; `clock(n)` is read when `n` records are left. */
  function AddAll(hash: Hash, name: string, g: Group, rs: seq<Record>, alloc: Allocator, clock: nat -> int): Group
    decreases |rs|
  {
    if rs == [] then g
    else
      var g' := Add(hash, name, g, rs[0], alloc, clock(|rs|));
      if Outcome(g.log, rs[0].payload, alloc).Id? then AddAll(hash, name, g', rs[1..], alloc, clock) else g'
  }

  function LookUp(hash: Hash, name: string, g: Group, id: nat, now: int): Option<LogEntry> {
    L.GetResult(g.cache, hash(name, id), now)
  }

  function AfterLookUp(hash: Hash, name: string, g: Group, id: nat, now: int): Group {
    g.(cache := L.AfterGet(g.cache, hash(name, id), now))
  }

  function ReadReply(hash: Hash, name: string, g: Group, id: nat, now: int): Result<Entry, LogError> {
    var hit := LookUp(hash, name, g, id, now);
    if hit.Some? then Ok(Uncached(hit.value)) else Read(g.log, id)
  }

  /** Looks up the ids from `lo` to below `hi`, stopping at the first miss; `clock(id)` is read at `id`. */
  function AfterLookUps(hash: Hash, name: string, g: Group, lo: nat, hi: nat, clock: nat -> int): Group
    requires lo <= hi
    decreases hi - lo
  {
    if lo == hi then g
    else
      var g' := AfterLookUp(hash, name, g, lo, clock(lo));
      if LookUp(hash, name, g, lo, clock(lo)).Some? then AfterLookUps(hash, name, g', lo + 1, hi, clock) else g'
  }

  /** The entries found, when every lookup hits. */
  function AllHits(hash: Hash, name: string, g: Group, lo: nat, hi: nat, clock: nat -> int): Option<seq<Entry>>
    requires lo <= hi
    decreases hi - lo
  {
    if lo == hi then Some([])
    else
      var hit := LookUp(hash, name, g, lo, clock(lo));
      if hit.None? then None
      else
        var rest := AllHits(hash, name, AfterLookUp(hash, name, g, lo, clock(lo)), lo + 1, hi, clock);
        if rest.None? then None else Some([Uncached(hit.value)] + rest.value)
  }

  function ReadRangeReply(hash: Hash, name: string, g: Group, start: nat, end: nat, clock: nat -> int): seq<Entry>
    requires start <= end
  {
    var hits := AllHits(hash, name, g, start, end + 1, clock);
    if hits.Some? then hits.value else ReadRange(g.log, start, end)
  }

  function Invalidated(hash: Hash, name: string, c: Cache, ids: seq<nat>): Cache
    decreases |ids|
  {
    if ids == [] then c else Invalidated(hash, name, L.Without(c, hash(name, ids[0])), ids[1..])
  }

  function Remove(hash: Hash, name: string, g: Group, cutoff: nat): Group {
    Group(Trim(g.log, cutoff), Invalidated(hash, name, g.cache, Ids(g.log.first, Excess(g.log, cutoff))))
  }

  // ---- the cache agrees with the log ----

  /** A cached item is a live entry, whole, under its own key. */
  ghost predicate Genuine(hash: Hash, name: string, log: Log, x: L.Item<nat, LogEntry>) {
    && log.Live(x.value.id) && x.key == hash(name, x.value.id)
    && x.value == Cached(log.EntryAt(x.value.id))
  }

  ghost predicate Coherent(hash: Hash, name: string, g: Group) {
    && WellPacked(g.log) && L.DistinctKeys(g.cache)
    && forall x :: x in g.cache ==> Genuine(hash, name, g.log, x)
  }

  /** No cached entry has the key of another id from `lo` to below `hi`. */
  ghost predicate Unaliased(hash: Hash, name: string, g: Group, lo: nat, hi: nat) {
    forall x, id: nat :: x in g.cache && lo <= id < hi && x.key == hash(name, id) ==> id == x.value.id
  }

  /** No cached entry has the key of any other id. */
  ghost predicate NoAlias(hash: Hash, name: string, g: Group) {
    Unaliased(hash, name, g, 0, U64_MAX + 1)
  }

  /** Different ids have different keys. */
  ghost predicate Injective(hash: Hash, name: string) {
    forall i: nat, j: nat :: i <= U64_MAX && j <= U64_MAX && hash(name, i) == hash(name, j) ==> i == j
  }

  lemma StepItems<K, V>(c: L.Cache<K, V>, cap: nat, op: L.Op<K, V>)
    requires L.DistinctKeys(c)
    ensures L.DistinctKeys(L.Step(c, cap, op))
    ensures forall x :: x in L.Step(c, cap, op) ==> x in c || (op.OpInsert? && x == L.Item(op.key, op.value, op.expiresAt))
  {
    L.StepDistinct(c, cap, op);
    var c' := L.Step(c, cap, op);
    forall i | 0 <= i < |c'| ensures c'[i] in c || (op.OpInsert? && c'[i] == L.Item(op.key, op.value, op.expiresAt)) {
      if c'[i].key == op.key {
        L.TouchedIsFirst(c, cap, op, i);
      } else {
        var p := L.Origin(c, cap, op, i);
      }
    }
  }

  lemma NewGroupCoherent(hash: Hash, name: string)
    ensures Coherent(hash, name, NEW_GROUP)
  {
  }

  lemma AddCoherent(hash: Hash, name: string, g: Group, r: Record, alloc: Allocator, now: int)
    requires Coherent(hash, name, g)
    ensures Coherent(hash, name, Add(hash, name, g, r, alloc, now))
  {
    AppendKeepsPacking(g.log, r.timestamp, r.payload, alloc);
    hide WellPacked;
    var o, g' := Outcome(g.log, r.payload, alloc), Add(hash, name, g, r, alloc, now);
    assert forall id: nat :: g.log.Live(id) ==> g'.log.Live(id) && g'.log.EntryAt(id) == g.log.EntryAt(id);
    if o.Id? {
      var e := Cached(Entry(o.id, r.timestamp, r.payload));
      StepItems(g.cache, CACHE_CAP, L.OpInsert(hash(name, o.id), e, now + CACHE_TTL));
      assert g'.log.Live(o.id) && g'.log.EntryAt(o.id) == Entry(o.id, r.timestamp, r.payload);
    }
  }

  lemma {:induction false} AddAllCoherent(hash: Hash, name: string, g: Group, rs: seq<Record>, alloc: Allocator, clock: nat -> int)
    requires Coherent(hash, name, g)
    ensures Coherent(hash, name, AddAll(hash, name, g, rs, alloc, clock))
    decreases |rs|
  {
    if rs != [] {
      AddCoherent(hash, name, g, rs[0], alloc, clock(|rs|));
      AddAllCoherent(hash, name, Add(hash, name, g, rs[0], alloc, clock(|rs|)), rs[1..], alloc, clock);
    }
  }

  lemma LookUpCoherent(hash: Hash, name: string, g: Group, id: nat, now: int)
    requires Coherent(hash, name, g)
    ensures Coherent(hash, name, AfterLookUp(hash, name, g, id, now))
  {
    StepItems(g.cache, CACHE_CAP, L.OpGet(hash(name, id), now));
  }

  lemma {:induction false} LookUpsCoherent(hash: Hash, name: string, g: Group, lo: nat, hi: nat, clock: nat -> int)
    requires Coherent(hash, name, g) && lo <= hi
    ensures Coherent(hash, name, AfterLookUps(hash, name, g, lo, hi, clock))
    ensures AfterLookUps(hash, name, g, lo, hi, clock).log == g.log
    decreases hi - lo
  {
    if lo < hi {
      LookUpCoherent(hash, name, g, lo, clock(lo));
      LookUpsCoherent(hash, name, AfterLookUp(hash, name, g, lo, clock(lo)), lo + 1, hi, clock);
    }
  }

  /** Invalidation drops every item cached under one of the ids, whatever the keys collide with. */
  lemma {:induction false} InvalidatedItems(hash: Hash, name: string, c: Cache, ids: seq<nat>)
    requires L.DistinctKeys(c)
    ensures L.DistinctKeys(Invalidated(hash, name, c, ids))
    ensures forall x :: x in Invalidated(hash, name, c, ids) ==> x in c && forall id :: id in ids ==> x.key != hash(name, id)
    decreases |ids|
  {
    if ids != [] {
      var k := hash(name, ids[0]);
      var w := L.Without(c, k);
      StepItems(c, 0, L.OpRemove(k));
      L.WithoutDistinct(c, k);
      InvalidatedItems(hash, name, w, ids[1..]);
      forall x | x in Invalidated(hash, name, c, ids) ensures x in c && forall id :: id in ids ==> x.key != hash(name, id) {
        assert x in w;
        forall id | id in ids ensures x.key != hash(name, id) {
          assert id == ids[0] || id in ids[1..];
        }
      }
    }
  }

  lemma GenuineSurvives(hash: Hash, name: string, log: Log, cutoff: nat, x: L.Item<nat, LogEntry>)
    requires Genuine(hash, name, log, x) && x.value.id !in Ids(log.first, Excess(log, cutoff))
    ensures Genuine(hash, name, Trim(log, cutoff), x)
  {
    IdsMembers(log.first, Excess(log, cutoff));
  }

  lemma RemoveCoherent(hash: Hash, name: string, g: Group, cutoff: nat)
    requires Coherent(hash, name, g)
    ensures Coherent(hash, name, Remove(hash, name, g, cutoff))
  {
    TrimKeepsPacking(g.log, cutoff);
    hide Genuine, Trim, Excess, Ids, WellPacked;
    var g', ids := Remove(hash, name, g, cutoff), Ids(g.log.first, Excess(g.log, cutoff));
    InvalidatedItems(hash, name, g.cache, ids);
    forall x | x in g'.cache ensures Genuine(hash, name, g'.log, x) {
      KeyOf(hash, name, g.log, x);
      GenuineSurvives(hash, name, g.log, cutoff, x);
    }
  }

  lemma KeyOf(hash: Hash, name: string, log: Log, x: L.Item<nat, LogEntry>)
    requires Genuine(hash, name, log, x)
    ensures x.key == hash(name, x.value.id)
  {
  }

  /** An accepted record is served from the cache for 30 seconds after it was added, and then no more. */
  lemma CachedFor30s(hash: Hash, name: string, g: Group, r: Record, alloc: Allocator, now: int, later: int)
    requires Outcome(g.log, r.payload, alloc).Id?
    ensures var id := g.log.NextId();
            LookUp(hash, name, Add(hash, name, g, r, alloc, now), id, later) ==
              if later <= now + 30_000_000_000 then Some(LogEntry(id, r.timestamp, |r.payload|, r.payload)) else None
  {
    hide Append;
    var id := g.log.NextId();
    L.GetAfterInsert(g.cache, CACHE_CAP, hash(name, id), Cached(Entry(id, r.timestamp, r.payload)), now + CACHE_TTL, later);
    hide L.Insert, L.GetResult;
  }

  /** A read is exact when no cached entry has the id's key but another id. */
  lemma ReadExact(hash: Hash, name: string, g: Group, id: nat, now: int)
    requires Coherent(hash, name, g) && Unaliased(hash, name, g, id, id + 1)
    ensures ReadReply(hash, name, g, id, now) == Read(g.log, id)
    ensures LookUp(hash, name, g, id, now).Some? ==>
              g.log.Live(id) && Uncached(LookUp(hash, name, g, id, now).value) == g.log.EntryAt(id)
  {
    hide WellPacked;
    var k := hash(name, id);
    if L.Fresh(g.cache, k, now) {
      var x := L.Find(g.cache, k);
      assert x in g.cache && Genuine(hash, name, g.log, x);
    }
  }

  /** A lookup puts nothing new into the cache, so no alias either. */
  lemma LookUpUnaliased(hash: Hash, name: string, g: Group, id: nat, now: int, lo: nat, hi: nat)
    requires Coherent(hash, name, g) && Unaliased(hash, name, g, lo, hi)
    ensures Unaliased(hash, name, AfterLookUp(hash, name, g, id, now), lo, hi)
  {
    hide WellPacked;
    StepItems(g.cache, CACHE_CAP, L.OpGet(hash(name, id), now));
  }

  lemma InjectiveUnaliased(hash: Hash, name: string, g: Group)
    requires Coherent(hash, name, g) && Injective(hash, name)
    ensures NoAlias(hash, name, g)
  {
    forall x, id: nat | x in g.cache && id <= U64_MAX && x.key == hash(name, id) ensures id == x.value.id {
      assert Genuine(hash, name, g.log, x);
    }
  }

  lemma {:induction false} AllHitsExact(hash: Hash, name: string, g: Group, lo: nat, hi: nat, clock: nat -> int)
    requires Coherent(hash, name, g) && lo <= hi && Unaliased(hash, name, g, lo, hi) && AllHits(hash, name, g, lo, hi, clock).Some?
    ensures lo < hi ==>
              g.log.first <= lo && hi <= g.log.NextId() && AllHits(hash, name, g, lo, hi, clock).value == Between(g.log, lo, hi)
    ensures lo == hi ==> AllHits(hash, name, g, lo, hi, clock).value == []
    decreases hi - lo
  {
    hide Coherent, LookUp, Between;
    if lo < hi {
      ReadExact(hash, name, g, lo, clock(lo));
      LookUpCoherent(hash, name, g, lo, clock(lo));
      LookUpUnaliased(hash, name, g, lo, clock(lo), lo + 1, hi);
      hide Unaliased;
      var g' := AfterLookUp(hash, name, g, lo, clock(lo));
      var rest := AllHits(hash, name, g', lo + 1, hi, clock);
      assert AllHits(hash, name, g, lo, hi, clock).value == [g.log.EntryAt(lo)] + rest.value;
      AllHitsExact(hash, name, g', lo + 1, hi, clock);
      hide AllHits;
      assert g'.log == g.log;
      BetweenSplit(g.log, lo, hi);
    }
  }

  /** A range read is exact when no cached entry has the key of an id in the range but another id; whether or not
      the cache serves it. */
  lemma ReadRangeExact(hash: Hash, name: string, g: Group, start: nat, end: nat, clock: nat -> int)
    requires Coherent(hash, name, g) && start <= end && Unaliased(hash, name, g, start, end + 1)
    ensures ReadRangeReply(hash, name, g, start, end, clock) == ReadRange(g.log, start, end)
  {
    hide Coherent, Unaliased, AllHits, Between;
    if AllHits(hash, name, g, start, end + 1, clock).Some? {
      AllHitsExact(hash, name, g, start, end + 1, clock);
    }
  }

  /** An alias shows: the id whose key a cached entry of another id has is answered with that entry. */
  lemma AliasShows(hash: Hash, name: string, g: Group, x: L.Item<nat, LogEntry>, id: nat)
    requires Coherent(hash, name, g) && x in g.cache && x.key == hash(name, id) && id != x.value.id
    ensures LookUp(hash, name, g, id, x.expiresAt) == Some(x.value)
    ensures ReadReply(hash, name, g, id, x.expiresAt) != Read(g.log, id)
  {
    hide WellPacked, Genuine;
    var p :| 0 <= p < |g.cache| && g.cache[p] == x;
    L.PosIs(g.cache, x.key, p);
  }

  /** And so is the range of that id alone. */
  lemma AliasShowsInRange(hash: Hash, name: string, g: Group, x: L.Item<nat, LogEntry>, id: nat)
    requires LookUp(hash, name, g, id, x.expiresAt) == Some(x.value) && id != x.value.id
    ensures ReadRangeReply(hash, name, g, id, id, _ => x.expiresAt) != ReadRange(g.log, id, id)
  {
    hide LookUp, AfterLookUp;
    var clock := _ => x.expiresAt;
    assert clock(id) == x.expiresAt;
    var g' := AfterLookUp(hash, name, g, id, x.expiresAt);
    assert AllHits(hash, name, g', id + 1, id + 1, clock) == Some([]);
    assert [Uncached(x.value)] + [] == [Uncached(x.value)];
    assert AllHits(hash, name, g, id, id + 1, clock) == Some([Uncached(x.value)]);
    hide AllHits;
    assert forall e :: e in ReadRange(g.log, id, id) ==> e.id == id;
  }

  /** In a coherent group every read, of every id and at every time, is exact if and only if no cached key is
      also the key of another id; and so is every range read. */
  lemma ReadsExactIff(hash: Hash, name: string, g: Group)
    requires Coherent(hash, name, g)
    ensures (forall id: u64, now :: ReadReply(hash, name, g, id, now) == Read(g.log, id)) <==> NoAlias(hash, name, g)
    ensures (forall start: u64, end: u64, clock | start <= end ::
               ReadRangeReply(hash, name, g, start, end, clock) == ReadRange(g.log, start, end)) <==> NoAlias(hash, name, g)
  {
    hide Coherent, ReadReply, ReadRangeReply, LogSpec.Read, ReadRange;
    if NoAlias(hash, name, g) {
      forall id: u64, now ensures ReadReply(hash, name, g, id, now) == Read(g.log, id) {
        ReadExact(hash, name, g, id, now);
      }
      forall start: u64, end: u64, clock | start <= end
        ensures ReadRangeReply(hash, name, g, start, end, clock) == ReadRange(g.log, start, end) {
        ReadRangeExact(hash, name, g, start, end, clock);
      }
    } else {
      var x, id: nat :| x in g.cache && id <= U64_MAX && x.key == hash(name, id) && id != x.value.id;
      AliasShows(hash, name, g, x, id);
      AliasShowsInRange(hash, name, g, x, id);
    }
  }

  /** When the keys of ids 1 and 2 collide, the second record is read under both. */
  lemma SecondOverwrites(hash: Hash, name: string, a: Record, b: Record, now: int)
    requires Size(a.payload) <= SEGMENT_SIZE && Size(b.payload) <= SEGMENT_SIZE && hash(name, 1) == hash(name, 2)
    ensures var g := Add(hash, name, Add(hash, name, NEW_GROUP, a, _ => true, now), b, _ => true, now);
            && ReadReply(hash, name, g, 1, now) == Ok(Entry(2, b.timestamp, b.payload))
            && Read(g.log, 1) == Ok(Entry(1, a.timestamp, a.payload))
  {
    var k, g1 := hash(name, 1), Add(hash, name, NEW_GROUP, a, _ => true, now);
    assert g1.log.live == [a] && g1.log.first == 1 && g1.log.Usable() && g1.log.segments == INITIAL_SEGMENTS;
    assert g1.cache == [L.Item(k, Cached(Entry(1, a.timestamp, a.payload)), now + CACHE_TTL)];
    assert L.Without(g1.cache, k) == [];
    var g := Add(hash, name, g1, b, _ => true, now);
    assert Outcome(g1.log, b.payload, _ => true) == Id(2);
    assert g.log.live == [a, b] && g.log.first == 1;
    assert g.cache == [L.Item(k, Cached(Entry(2, b.timestamp, b.payload)), now + CACHE_TTL)];
  }
}
