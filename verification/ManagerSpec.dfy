/** The group manager over every run, with its caches and without them. */
module ManagerSpec {
  import opened Bytes
  import opened LogSpec
  import G = GroupSpec

  datatype Op =
    | Create(name: string)
    | Drop(name: string)
    | Add(name: string, record: Record, alloc: Allocator, now: int)
    | AddRange(name: string, records: seq<Record>, alloc: Allocator, clock: nat -> int)
    | Read(name: string, id: nat, now: int)
    | ReadRange(name: string, start: nat, end: nat, clock: nat -> int)
    | Remove(name: string, upTo: nat)
    | Stats(name: string)

  datatype Reply =
    | Done
    | NewId(id: nat)
    | NewIds(first: nat, last: nat)
    | One(entry: Entry)
    | Many(entries: seq<Entry>)
    | Counts(live: nat, segments: nat, nextId: nat)
    | Refused(error: G.GroupError)

  /** `read_range` computes `end - start + 1`, which must not wrap. */
  predicate Askable(op: Op) {
    op.ReadRange? ==> op.start <= op.end && op.end - op.start < U64_MAX
  }

  // ---- without caches ----

  type Logs = map<string, Log>

  function AppendAll(s: Log, rs: seq<Record>, alloc: Allocator): Log
    decreases |rs|
  {
    if rs == [] then s
    else
      var s' := Append(s, rs[0].timestamp, rs[0].payload, alloc);
      if Outcome(s, rs[0].payload, alloc).Id? then AppendAll(s', rs[1..], alloc) else s'
  }

  /** The first refusal met, if any. */
  function FirstRefusal(s: Log, rs: seq<Record>, alloc: Allocator): (o: Option<Appended>)
    ensures o.Some? ==> !o.value.Id?
    decreases |rs|
  {
    if rs == [] then None
    else
      var o := Outcome(s, rs[0].payload, alloc);
      if o.Id? then FirstRefusal(Append(s, rs[0].timestamp, rs[0].payload, alloc), rs[1..], alloc) else Some(o)
  }

  /** A range is refused if and only if some record of it is not taken in its turn. */
  lemma {:induction false} RangeRefusedIff(s: Log, rs: seq<Record>, alloc: Allocator)
    ensures FirstRefusal(s, rs, alloc).Some? <==> !TakesAll(s, rs, alloc)
    decreases |rs|
  {
    if rs != [] {
      AcceptedIff(s, rs[0].payload, alloc);
      if Takes(s, rs[0].payload, alloc) {
        TakenIsBehind(s, rs[0], alloc);
        hide Append, Outcome, Behind, Takes;
        var s', t := Append(s, rs[0].timestamp, rs[0].payload, alloc), Behind(s, Size(rs[0].payload));
        RangeRefusedIff(s', rs[1..], alloc);
        TakesAllSame(s', t, rs[1..], alloc);
      }
    }
  }

  function AfterRange(s: Log, rs: seq<Record>, alloc: Allocator): Reply {
    if rs == [] then Refused(G.LogFailed(EntryNotFound))
    else
      var refusal := FirstRefusal(s, rs, alloc);
      if refusal.None? then NewIds(s.NextId(), s.NextId() + |rs| - 1)
      else Refused(G.Refusal(refusal.value))
  }

  function LogStep(m: Logs, op: Op): Logs
    requires Askable(op)
  {
    if op.Create? then
      if op.name in m then m else m[op.name := EMPTY]
    else if op.name !in m then m
    else match op
      case Drop(n) => m - {n}
      case Add(n, r, alloc, _) => m[n := Append(m[n], r.timestamp, r.payload, alloc)]
      case AddRange(n, rs, alloc, _) => m[n := AppendAll(m[n], rs, alloc)]
      case Remove(n, upTo) => m[n := Trim(m[n], upTo)]
      case _ => m
  }

  function LogReply(m: Logs, op: Op): Reply
    requires Askable(op)
  {
    if op.Create? then
      if op.name in m then Refused(G.GroupAlreadyExists) else Done
    else if op.AddRange? && op.records == [] then Refused(G.LogFailed(EntryNotFound))
    else if op.name !in m then Refused(G.GroupNotFound)
    else
      var s := m[op.name];
      match op
      case Add(_, r, alloc, _) =>
        var o := Outcome(s, r.payload, alloc);
        if o.Id? then NewId(o.id) else Refused(G.Refusal(o))
      case AddRange(_, rs, alloc, _) => AfterRange(s, rs, alloc)
      case Read(_, id, _) =>
        var r := LogSpec.Read(s, id);
        if r.Ok? then One(r.value) else Refused(G.LogFailed(r.error))
      case ReadRange(_, start, end, _) => Many(LogSpec.ReadRange(s, start, end))
      case Stats(_) => Counts(|s.live|, s.segments, s.NextId())
      case _ => Done
  }

  // ---- with caches ----

  type Groups = map<string, G.Group>

  function Step(hash: G.Hash, m: Groups, op: Op): Groups
    requires Askable(op)
  {
    if op.Create? then
      if op.name in m then m else m[op.name := G.NEW_GROUP]
    else if op.name !in m then m
    else match op
      case Drop(n) => m - {n}
      case Add(n, r, alloc, now) => m[n := G.Add(hash, n, m[n], r, alloc, now)]
      case AddRange(n, rs, alloc, clock) => m[n := G.AddAll(hash, n, m[n], rs, alloc, clock)]
      case Read(n, id, now) => m[n := G.AfterLookUp(hash, n, m[n], id, now)]
      case ReadRange(n, start, end, clock) => m[n := G.AfterLookUps(hash, n, m[n], start, end + 1, clock)]
      case Remove(n, upTo) => m[n := G.Remove(hash, n, m[n], upTo)]
      case _ => m
  }

  function ReplyTo(hash: G.Hash, m: Groups, op: Op): Reply
    requires Askable(op)
  {
    if op.Create? then
      if op.name in m then Refused(G.GroupAlreadyExists) else Done
    else if op.AddRange? && op.records == [] then Refused(G.LogFailed(EntryNotFound))
    else if op.name !in m then Refused(G.GroupNotFound)
    else
      var g := m[op.name];
      match op
      case Add(_, r, alloc, _) =>
        var o := Outcome(g.log, r.payload, alloc);
        if o.Id? then NewId(o.id) else Refused(G.Refusal(o))
      case AddRange(_, rs, alloc, _) => AfterRange(g.log, rs, alloc)
      case Read(n, id, now) =>
        var r := G.ReadReply(hash, n, g, id, now);
        if r.Ok? then One(r.value) else Refused(G.LogFailed(r.error))
      case ReadRange(n, start, end, clock) => Many(G.ReadRangeReply(hash, n, g, start, end, clock))
      case Stats(_) => Counts(|g.log.live|, g.log.segments, g.log.NextId())
      case _ => Done
  }

  // ---- one round of each loop ----

  lemma AddAllStep(hash: G.Hash, name: string, g: G.Group, rs: seq<Record>, alloc: Allocator, clock: nat -> int)
    requires rs != []
    ensures var o, g' := Outcome(g.log, rs[0].payload, alloc), G.Add(hash, name, g, rs[0], alloc, clock(|rs|));
            && G.AddAll(hash, name, g, rs, alloc, clock) == (if o.Id? then G.AddAll(hash, name, g', rs[1..], alloc, clock) else g')
            && FirstRefusal(g.log, rs, alloc) == (if o.Id? then FirstRefusal(g'.log, rs[1..], alloc) else Some(o))
            && (o.Id? ==> o.id == g.log.NextId() && g'.log.NextId() == o.id + 1)
  {
  }

  lemma AddStep(hash: G.Hash, m: Groups, name: string, r: Record, alloc: Allocator, now: int)
    ensures var op := Add(name, r, alloc, now);
            if name !in m then Step(hash, m, op) == m && ReplyTo(hash, m, op) == Refused(G.GroupNotFound)
            else && Step(hash, m, op) == m[name := G.Add(hash, name, m[name], r, alloc, now)]
                 && ReplyTo(hash, m, op) == var o := Outcome(m[name].log, r.payload, alloc);
                                            if o.Id? then NewId(o.id) else Refused(G.Refusal(o))
  {
  }

  lemma AddRangeStep(hash: G.Hash, m: Groups, name: string, rs: seq<Record>, alloc: Allocator, clock: nat -> int)
    ensures var op := AddRange(name, rs, alloc, clock);
            if name !in m then Step(hash, m, op) == m && ReplyTo(hash, m, op) == Refused(if rs == [] then G.LogFailed(EntryNotFound) else G.GroupNotFound)
            else && Step(hash, m, op) == m[name := G.AddAll(hash, name, m[name], rs, alloc, clock)]
                 && ReplyTo(hash, m, op) == AfterRange(m[name].log, rs, alloc)
    ensures rs == [] ==> Step(hash, m, AddRange(name, rs, alloc, clock)) == m
  {
    if name in m {
      AddAllNone(hash, name, m[name], alloc, clock);
      assert m[name := m[name]] == m;
    }
  }

  lemma AddAllNone(hash: G.Hash, name: string, g: G.Group, alloc: Allocator, clock: nat -> int)
    ensures G.AddAll(hash, name, g, [], alloc, clock) == g && FirstRefusal(g.log, [], alloc) == None
  {
  }

  function Prefixed(a: seq<Entry>, b: Option<seq<Entry>>): Option<seq<Entry>> {
    if b.None? then None else Some(a + b.value)
  }

  lemma PrefixedNone(b: Option<seq<Entry>>)
    ensures Prefixed([], b) == b
  {
    assert b.Some? ==> [] + b.value == b.value;
  }

  lemma LookUpsStep(hash: G.Hash, name: string, g: G.Group, lo: nat, hi: nat, clock: nat -> int, a: seq<Entry>)
    requires lo < hi
    ensures var hit, g' := G.LookUp(hash, name, g, lo, clock(lo)), G.AfterLookUp(hash, name, g, lo, clock(lo));
            && G.AfterLookUps(hash, name, g, lo, hi, clock) == (if hit.Some? then G.AfterLookUps(hash, name, g', lo + 1, hi, clock) else g')
            && Prefixed(a, G.AllHits(hash, name, g, lo, hi, clock)) ==
               (if hit.Some? then Prefixed(a + [G.Uncached(hit.value)], G.AllHits(hash, name, g', lo + 1, hi, clock)) else None)
  {
    var hit := G.LookUp(hash, name, g, lo, clock(lo));
    if hit.Some? {
      var rest := G.AllHits(hash, name, G.AfterLookUp(hash, name, g, lo, clock(lo)), lo + 1, hi, clock);
      if rest.Some? {
        assert a + ([G.Uncached(hit.value)] + rest.value) == a + [G.Uncached(hit.value)] + rest.value;
      }
    }
  }

  lemma {:induction false} LookUpsKeepLog(hash: G.Hash, name: string, g: G.Group, lo: nat, hi: nat, clock: nat -> int)
    requires lo <= hi
    ensures G.AfterLookUps(hash, name, g, lo, hi, clock).log == g.log
    decreases hi - lo
  {
    if lo < hi {
      LookUpsKeepLog(hash, name, G.AfterLookUp(hash, name, g, lo, clock(lo)), lo + 1, hi, clock);
    }
  }

  lemma LookUpsNone(hash: G.Hash, name: string, g: G.Group, hi: nat, clock: nat -> int)
    ensures G.AfterLookUps(hash, name, g, hi, hi, clock) == g && G.AllHits(hash, name, g, hi, hi, clock) == Some([])
  {
  }

  // ---- the caches make no difference ----

  function LogsOf(m: Groups): Logs {
    map n | n in m :: m[n].log
  }

  ghost predicate Coherent(hash: G.Hash, m: Groups) {
    forall n :: n in m ==> G.Coherent(hash, n, m[n])
  }

  ghost predicate Injective(hash: G.Hash) {
    forall n :: G.Injective(hash, n)
  }

  lemma {:induction false} AddAllLog(hash: G.Hash, name: string, g: G.Group, rs: seq<Record>, alloc: Allocator, clock: nat -> int)
    ensures G.AddAll(hash, name, g, rs, alloc, clock).log == AppendAll(g.log, rs, alloc)
    decreases |rs|
  {
    if rs != [] {
      AddAllLog(hash, name, G.Add(hash, name, g, rs[0], alloc, clock(|rs|)), rs[1..], alloc, clock);
    }
  }

  lemma LogsOfUpdate(m: Groups, n: string, g: G.Group)
    ensures LogsOf(m[n := g]) == LogsOf(m)[n := g.log]
  {
  }

  /** A step of the cached manager is, seen through `LogsOf`, a step of the plain one. */
  lemma StepLogs(hash: G.Hash, m: Groups, op: Op)
    requires Askable(op)
    ensures LogsOf(Step(hash, m, op)) == LogStep(LogsOf(m), op)
  {
    if op.Create? {
      LogsOfUpdate(m, op.name, G.NEW_GROUP);
    } else if op.name in m && !op.Drop? && !op.Stats? {
      LogsOfUpdate(m, op.name, Step(hash, m, op)[op.name]);
      GroupStepLog(hash, m, op);
    }
  }

  /** What a step does to the log of the group it names. */
  lemma GroupStepLog(hash: G.Hash, m: Groups, op: Op)
    requires Askable(op) && op.name in m && !op.Create? && !op.Drop?
    ensures op.name in Step(hash, m, op) && op.name in LogStep(LogsOf(m), op)
    ensures Step(hash, m, op)[op.name].log == LogStep(LogsOf(m), op)[op.name]
  {
    hide Append, Trim, Outcome, G.AddAll, G.AfterLookUps, G.Invalidated, G.L.Insert, G.L.AfterGet;
    match op
    case AddRange(n, rs, alloc, clock) => AddAllLog(hash, n, m[n], rs, alloc, clock);
    case ReadRange(n, start, end, clock) => LookUpsKeepLog(hash, n, m[n], start, end + 1, clock);
    case _ =>
  }

  lemma StepCoherent(hash: G.Hash, m: Groups, op: Op)
    requires Coherent(hash, m) && Askable(op)
    ensures Coherent(hash, Step(hash, m, op))
  {
    hide G.Coherent, G.Add, G.AddAll, G.AfterLookUp, G.AfterLookUps, G.Remove;
    G.NewGroupCoherent(hash, op.name);
    if op.name in m {
      var g := m[op.name];
      match op
      case Add(n, r, alloc, now) => G.AddCoherent(hash, n, g, r, alloc, now);
      case AddRange(n, rs, alloc, clock) => G.AddAllCoherent(hash, n, g, rs, alloc, clock);
      case Read(n, id, now) => G.LookUpCoherent(hash, n, g, id, now);
      case ReadRange(n, start, end, clock) => G.LookUpsCoherent(hash, n, g, start, end + 1, clock);
      case Remove(n, upTo) => G.RemoveCoherent(hash, n, g, upTo);
      case _ =>
    }
  }

  /** No id the operation looks up has the key of a cached entry of another id. */
  ghost predicate Unaliased(hash: G.Hash, m: Groups, op: Op) {
    op.name in m ==>
      match op
      case Read(n, id, _) => G.Unaliased(hash, n, m[n], id, id + 1)
      case ReadRange(n, start, end, _) => G.Unaliased(hash, n, m[n], start, end + 1)
      case _ => true
  }

  lemma ReplyExact(hash: G.Hash, m: Groups, op: Op)
    requires Coherent(hash, m) && Unaliased(hash, m, op) && Askable(op)
    ensures ReplyTo(hash, m, op) == LogReply(LogsOf(m), op)
  {
    hide G.Coherent, G.Unaliased;
    if op.name in m {
      var g := m[op.name];
      match op
      case Read(n, id, now) => G.ReadExact(hash, n, g, id, now);
      case ReadRange(n, start, end, clock) => G.ReadRangeExact(hash, n, g, start, end, clock);
      case _ =>
    }
  }

  function Run(hash: G.Hash, m: Groups, ops: seq<Op>): Groups
    requires forall op :: op in ops ==> Askable(op)
    decreases |ops|
  {
    if ops == [] then m else Run(hash, Step(hash, m, ops[0]), ops[1..])
  }

  function Replies(hash: G.Hash, m: Groups, ops: seq<Op>): seq<Reply>
    requires forall op :: op in ops ==> Askable(op)
    decreases |ops|
  {
    if ops == [] then [] else [ReplyTo(hash, m, ops[0])] + Replies(hash, Step(hash, m, ops[0]), ops[1..])
  }

  function LogRun(m: Logs, ops: seq<Op>): Logs
    requires forall op :: op in ops ==> Askable(op)
    decreases |ops|
  {
    if ops == [] then m else LogRun(LogStep(m, ops[0]), ops[1..])
  }

  function LogReplies(m: Logs, ops: seq<Op>): seq<Reply>
    requires forall op :: op in ops ==> Askable(op)
    decreases |ops|
  {
    if ops == [] then [] else [LogReply(m, ops[0])] + LogReplies(LogStep(m, ops[0]), ops[1..])
  }

  /** At no point of the run does a lookup meet an alias. */
  ghost predicate NoAliasMet(hash: G.Hash, m: Groups, ops: seq<Op>)
    requires forall op :: op in ops ==> Askable(op)
    decreases |ops|
  {
    ops == [] || (Unaliased(hash, m, ops[0]) && NoAliasMet(hash, Step(hash, m, ops[0]), ops[1..]))
  }

  /** Over every run in which no lookup meets an alias, whatever expires or is evicted and whatever is trimmed,
      dropped or created again, every reply is the one a manager without caches gives, and every cached entry is
      live and exact. */
  lemma {:induction false} CachesAreTransparent(hash: G.Hash, m: Groups, ops: seq<Op>)
    requires Coherent(hash, m) && (forall op :: op in ops ==> Askable(op)) && NoAliasMet(hash, m, ops)
    ensures Coherent(hash, Run(hash, m, ops))
    ensures LogsOf(Run(hash, m, ops)) == LogRun(LogsOf(m), ops)
    ensures Replies(hash, m, ops) == LogReplies(LogsOf(m), ops)
    decreases |ops|
  {
    hide Coherent, Unaliased, Askable;
    if ops != [] {
      StepLogs(hash, m, ops[0]);
      StepCoherent(hash, m, ops[0]);
      ReplyExact(hash, m, ops[0]);
      CachesAreTransparent(hash, Step(hash, m, ops[0]), ops[1..]);
    }
  }

  lemma {:induction false} InjectiveMeetsNone(hash: G.Hash, m: Groups, ops: seq<Op>)
    requires Coherent(hash, m) && Injective(hash) && forall op :: op in ops ==> Askable(op) && InRange(op)
    ensures NoAliasMet(hash, m, ops)
    decreases |ops|
  {
    hide G.Coherent, Askable, G.Injective;
    if ops != [] {
      var op := ops[0];
      assert op in ops;
      if op.name in m {
        G.InjectiveUnaliased(hash, op.name, m[op.name]);
      }
      StepCoherent(hash, m, op);
      InjectiveMeetsNone(hash, Step(hash, m, op), ops[1..]);
    }
  }

  /** The ids asked for are 64-bit numbers. */
  predicate InRange(op: Op) {
    (op.Read? ==> op.id <= U64_MAX) && (op.ReadRange? ==> op.end <= U64_MAX)
  }

  /** When different 64-bit ids have different keys, no run is affected by the caches. */
  lemma InjectiveIsTransparent(hash: G.Hash, m: Groups, ops: seq<Op>)
    requires Coherent(hash, m) && Injective(hash) && forall op :: op in ops ==> Askable(op) && InRange(op)
    ensures Replies(hash, m, ops) == LogReplies(LogsOf(m), ops)
  {
    InjectiveMeetsNone(hash, m, ops);
    CachesAreTransparent(hash, m, ops);
  }

  /** An alias is met from the start: when the keys of ids 1 and 2 collide, the second record is read under both. */
  lemma CollisionShows(hash: G.Hash, name: string, a: Record, b: Record, now: int)
    requires a != b && Size(a.payload) <= SEGMENT_SIZE && Size(b.payload) <= SEGMENT_SIZE
    requires hash(name, 1) == hash(name, 2)
    ensures var ops := [Create(name), Add(name, a, _ => true, now), Add(name, b, _ => true, now)];
            var m := Run(hash, map[], ops);
            && ReplyTo(hash, m, Read(name, 1, now)) == One(Entry(2, b.timestamp, b.payload))
            && LogReply(LogsOf(m), Read(name, 1, now)) == One(Entry(1, a.timestamp, a.payload))
  {
    G.SecondOverwrites(hash, name, a, b, now);
    hide G.Add, G.ReadReply, LogSpec.Read;
    var create, first, second := Create(name), Add(name, a, _ => true, now), Add(name, b, _ => true, now);
    var m0 := Step(hash, map[], create);
    var m1 := Step(hash, m0, first);
    assert Run(hash, map[], [create, first, second]) == Step(hash, m1, second) by {
      assert [create, first, second][1..] == [first, second];
      assert [first, second][1..] == [second];
      assert Run(hash, m1, [second]) == Step(hash, m1, second);
    }
  }

  /** A group that comes back under a dropped name starts empty: nothing cached before can be read. */
  lemma RecreatedIsEmpty(hash: G.Hash, m: Groups, name: string, between: seq<Op>, id: nat, now: int)
    requires forall op :: op in between ==> Askable(op) && op.name != name
    ensures var m' := Step(hash, Run(hash, Step(hash, m, Drop(name)), between), Create(name));
            ReplyTo(hash, m', Read(name, id, now)) == Refused(G.LogFailed(EntryNotFound))
  {
    OthersKeep(hash, Step(hash, m, Drop(name)), between, name);
  }

  lemma {:induction false} OthersKeep(hash: G.Hash, m: Groups, ops: seq<Op>, name: string)
    requires name !in m && forall op :: op in ops ==> Askable(op) && op.name != name
    ensures name !in Run(hash, m, ops)
    decreases |ops|
  {
    if ops != [] {
      assert ops[0] in ops;
      OthersKeep(hash, Step(hash, m, ops[0]), ops[1..], name);
    }
  }

  // ---- the caches stay small ----

  ghost predicate Bounded(m: Groups) {
    forall n :: n in m ==> |m[n].cache| <= 100_000
  }

  lemma {:induction false} AddAllBounded(hash: G.Hash, name: string, g: G.Group, rs: seq<Record>, alloc: Allocator, clock: nat -> int)
    requires |g.cache| <= 100_000
    ensures |G.AddAll(hash, name, g, rs, alloc, clock).cache| <= 100_000
    decreases |rs|
  {
    hide G.Add;
    if rs != [] {
      AddBounded(hash, name, g, rs[0], alloc, clock(|rs|));
      AddAllBounded(hash, name, G.Add(hash, name, g, rs[0], alloc, clock(|rs|)), rs[1..], alloc, clock);
    }
  }

  lemma AddBounded(hash: G.Hash, name: string, g: G.Group, r: Record, alloc: Allocator, now: int)
    requires |g.cache| <= 100_000
    ensures |G.Add(hash, name, g, r, alloc, now).cache| <= 100_000
  {
    hide Append, Outcome, G.L.Insert;
    var o := Outcome(g.log, r.payload, alloc);
    if o.Id? {
      G.L.StepWithinCapacity(g.cache, 100_000,
        G.L.OpInsert(hash(name, o.id), G.Cached(Entry(o.id, r.timestamp, r.payload)), now + G.CACHE_TTL));
    }
  }

  lemma {:induction false} LookUpsBounded(hash: G.Hash, name: string, g: G.Group, lo: nat, hi: nat, clock: nat -> int)
    requires |g.cache| <= 100_000 && lo <= hi
    ensures |G.AfterLookUps(hash, name, g, lo, hi, clock).cache| <= 100_000
    decreases hi - lo
  {
    hide G.L.AfterGet;
    if lo < hi {
      G.L.StepWithinCapacity(g.cache, 100_000, G.L.OpGet(hash(name, lo), clock(lo)));
      LookUpsBounded(hash, name, G.AfterLookUp(hash, name, g, lo, clock(lo)), lo + 1, hi, clock);
    }
  }

  lemma {:induction false} InvalidatedBounded(hash: G.Hash, name: string, c: G.Cache, ids: seq<nat>)
    requires |c| <= 100_000
    ensures |G.Invalidated(hash, name, c, ids)| <= 100_000
    decreases |ids|
  {
    hide G.L.Without;
    if ids != [] {
      G.L.StepWithinCapacity(c, 100_000, G.L.OpRemove(hash(name, ids[0])));
      InvalidatedBounded(hash, name, G.L.Without(c, hash(name, ids[0])), ids[1..]);
    }
  }

  lemma GroupBounded(hash: G.Hash, m: Groups, op: Op)
    requires op.name in m && |m[op.name].cache| <= 100_000 && Askable(op) && op.name in Step(hash, m, op)
    ensures |Step(hash, m, op)[op.name].cache| <= 100_000
  {
    hide G.Add, G.AddAll, G.AfterLookUps, G.Invalidated, LogSpec.Trim, G.L.AfterGet;
    var g := m[op.name];
    match op
    case Add(n, r, alloc, now) => AddBounded(hash, n, g, r, alloc, now);
    case AddRange(n, rs, alloc, clock) => AddAllBounded(hash, n, g, rs, alloc, clock);
    case Read(n, id, now) => G.L.StepWithinCapacity(g.cache, 100_000, G.L.OpGet(hash(n, id), now));
    case ReadRange(n, start, end, clock) => LookUpsBounded(hash, n, g, start, end + 1, clock);
    case Remove(n, upTo) => InvalidatedBounded(hash, n, g.cache, Ids(g.log.first, Excess(g.log, upTo)));
    case _ =>
  }

  /** Over every run no group's cache holds more than 100,000 entries. */
  lemma {:induction false} CachesBounded(hash: G.Hash, m: Groups, ops: seq<Op>)
    requires Bounded(m) && forall op :: op in ops ==> Askable(op)
    ensures Bounded(Run(hash, m, ops))
    decreases |ops|
  {
    hide Askable;
    if ops != [] {
      assert ops[0] in ops;
      StepBounded(hash, m, ops[0]);
      hide Step, Bounded;
      CachesBounded(hash, Step(hash, m, ops[0]), ops[1..]);
    }
  }

  lemma StepBounded(hash: G.Hash, m: Groups, op: Op)
    requires Bounded(m) && Askable(op)
    ensures Bounded(Step(hash, m, op))
  {
    hide G.Add, G.AddAll, G.AfterLookUp, G.AfterLookUps, G.Remove;
    if op.name in m && op.name in Step(hash, m, op) {
      GroupBounded(hash, m, op);
    }
  }

  // ---- what the replies are for ----

  lemma AppendAdds(s: Log, r: Record, alloc: Allocator)
    requires Outcome(s, r.payload, alloc).Id?
    ensures var s' := Append(s, r.timestamp, r.payload, alloc); s'.first == s.first && s'.live == s.live + [r]
    ensures Outcome(s, r.payload, alloc).id == s.first + |s.live|
  {
  }

  /** An accepted range joins the live records, in order. */
  lemma {:induction false} AppendAllAdds(s: Log, rs: seq<Record>, alloc: Allocator)
    requires FirstRefusal(s, rs, alloc).None?
    ensures var s' := AppendAll(s, rs, alloc); s'.first == s.first && s'.live == s.live + rs
    decreases |rs|
  {
    if rs == [] {
      assert s.live + rs == s.live;
    } else {
      AppendAdds(s, rs[0], alloc);
      hide Append, Outcome;
      var s1 := Append(s, rs[0].timestamp, rs[0].payload, alloc);
      AppendAllAdds(s1, rs[1..], alloc);
      assert s.live + [rs[0]] + rs[1..] == s.live + rs;
    }
  }

  /** A range that is refused stops at its first record that is, where those before it have left the log: the reply is
      that record's, the ones before it stay, and the ones behind it are not tried. */
  lemma {:induction false} RangeStopsAt(s: Log, rs: seq<Record>, alloc: Allocator, k: nat)
    requires k < |rs| && FirstRefusal(s, rs[..k], alloc).None?
    requires !Outcome(AppendAll(s, rs[..k], alloc), rs[k].payload, alloc).Id?
    ensures FirstRefusal(s, rs, alloc) == Some(Outcome(AppendAll(s, rs[..k], alloc), rs[k].payload, alloc))
    ensures AppendAll(s, rs, alloc).first == s.first && AppendAll(s, rs, alloc).live == s.live + rs[..k]
    decreases k
  {
    if k == 0 {
      RefusedAdds(s, rs[0], alloc);
      hide Append, Outcome;
      assert rs[..0] == [];
      assert s.live + [] == s.live;
    } else {
      assert rs[..k][1..] == rs[1..][..k - 1];
      AppendAdds(s, rs[0], alloc);
      hide Append, Outcome;
      var s1 := Append(s, rs[0].timestamp, rs[0].payload, alloc);
      RangeStopsAt(s1, rs[1..], alloc, k - 1);
      assert s.live + [rs[0]] + rs[1..][..k - 1] == s.live + rs[..k];
    }
  }

  lemma RefusedAdds(s: Log, r: Record, alloc: Allocator)
    requires !Outcome(s, r.payload, alloc).Id?
    ensures var s' := Append(s, r.timestamp, r.payload, alloc); s'.first == s.first && s'.live == s.live
  {
  }

  /** The records handed in are read back under the ids handed out. */
  ghost predicate ReadBack(m: Logs, name: string, first: nat, rs: seq<Record>) {
    forall id: nat, now :: first <= id < first + |rs| ==>
      LogReply(m, Read(name, id, now)) == One(Entry(id, rs[id - first].timestamp, rs[id - first].payload))
  }

  /** The two ids a range append answers with are those of its first and its last record: as many ids as records, and
      each record reads back under its own. */
  lemma NewIdsReadBack(m: Logs, name: string, rs: seq<Record>, alloc: Allocator, clock: nat -> int, a: nat, b: nat)
    requires LogReply(m, AddRange(name, rs, alloc, clock)) == NewIds(a, b)
    ensures b - a + 1 == |rs| && ReadBack(LogStep(m, AddRange(name, rs, alloc, clock)), name, a, rs)
  {
    var s := m[name];
    AppendAllAdds(s, rs, alloc);
    hide AppendAll, FirstRefusal;
    var s' := AppendAll(s, rs, alloc);
    forall id: nat | a <= id < a + |rs| ensures LogSpec.Read(s', id) == Ok(Entry(id, rs[id - a].timestamp, rs[id - a].payload)) {
      assert s'.live[id - s.first] == rs[id - a];
    }
  }

  /** The id an append answers with is the one its record reads back under. */
  lemma NewIdReadsBack(m: Logs, name: string, r: Record, alloc: Allocator, now: int, id: nat)
    requires LogReply(m, Add(name, r, alloc, now)) == NewId(id)
    ensures ReadBack(LogStep(m, Add(name, r, alloc, now)), name, id, [r])
  {
    AppendAdds(m[name], r, alloc);
    hide Append, Outcome;
  }

  /** The same through the caches, where no lookup meets an alias. */
  lemma CachedNewIdsReadBack(hash: G.Hash, m: Groups, name: string, rs: seq<Record>, alloc: Allocator, clock: nat -> int,
                             a: nat, b: nat, i: nat, now: int)
    requires Coherent(hash, m) && ReplyTo(hash, m, AddRange(name, rs, alloc, clock)) == NewIds(a, b) && i < |rs|
    requires var m' := Step(hash, m, AddRange(name, rs, alloc, clock)); Unaliased(hash, m', Read(name, a + i, now))
    ensures b - a + 1 == |rs|
    ensures var m' := Step(hash, m, AddRange(name, rs, alloc, clock));
            ReplyTo(hash, m', Read(name, a + i, now)) == One(Entry(a + i, rs[i].timestamp, rs[i].payload))
  {
    hide Step, LogStep, ReplyTo, LogReply, LogsOf, Coherent, Unaliased;
    var op := AddRange(name, rs, alloc, clock);
    WriteUnaliased(hash, m, op);
    ReplyExact(hash, m, op);
    NewIdsReadBack(LogsOf(m), name, rs, alloc, clock, a, b);
    StepLogs(hash, m, op);
    StepCoherent(hash, m, op);
    ReplyExact(hash, Step(hash, m, op), Read(name, a + i, now));
  }

  lemma CachedNewIdReadsBack(hash: G.Hash, m: Groups, name: string, r: Record, alloc: Allocator, at: int, id: nat, now: int)
    requires Coherent(hash, m) && ReplyTo(hash, m, Add(name, r, alloc, at)) == NewId(id)
    requires var m' := Step(hash, m, Add(name, r, alloc, at)); Unaliased(hash, m', Read(name, id, now))
    ensures var m' := Step(hash, m, Add(name, r, alloc, at));
            ReplyTo(hash, m', Read(name, id, now)) == One(Entry(id, r.timestamp, r.payload))
  {
    hide Step, LogStep, ReplyTo, LogReply, LogsOf, Coherent, Unaliased;
    var op := Add(name, r, alloc, at);
    WriteUnaliased(hash, m, op);
    ReplyExact(hash, m, op);
    NewIdReadsBack(LogsOf(m), name, r, alloc, at, id);
    StepLogs(hash, m, op);
    StepCoherent(hash, m, op);
    ReplyExact(hash, Step(hash, m, op), Read(name, id, now));
  }

  lemma WriteUnaliased(hash: G.Hash, m: Groups, op: Op)
    requires op.Add? || op.AddRange?
    ensures Unaliased(hash, m, op) && Askable(op)
  {
  }

  /** Which operations are refused, and why. */
  lemma RefusedIff(m: Logs, op: Op)
    requires Askable(op)
    ensures op.Create? ==> LogReply(m, op) == if op.name in m then Refused(G.GroupAlreadyExists) else Done
    ensures LogReply(m, op) == Refused(G.GroupNotFound) <==>
              op.name !in m && !op.Create? && (op.AddRange? ==> op.records != [])
    ensures op.AddRange? && op.records == [] ==> LogReply(m, op) == Refused(G.LogFailed(EntryNotFound))
    ensures op.name in m && op.Read? ==>
              (LogReply(m, op).One? <==> m[op.name].Live(op.id))
              && (!m[op.name].Live(op.id) ==> LogReply(m, op) == Refused(G.LogFailed(EntryNotFound)))
    ensures op.name in m && (op.Drop? || op.Remove?) ==> LogReply(m, op) == Done
  {
    hide Outcome, FirstRefusal;
  }

  /** Why an append to a group is refused. */
  lemma AddRefusedIff(m: Logs, name: string, r: Record, alloc: Allocator, now: int)
    requires name in m && WellPacked(m[name])
    ensures var s, answer := m[name], LogReply(m, Add(name, r, alloc, now));
            && (answer == Refused(G.LogFailed(EntryTooLarge)) <==> |r.payload| > 65516)
            && (answer == Refused(G.Crashed) <==> |r.payload| <= 65516 && !s.Usable())
            && (answer == NewId(s.first + |s.live|) <==> Takes(s, r.payload, alloc))
            && (answer.Refused? && answer.error.LogFailed? ==> answer.error.error != EntryNotFound)
  {
    RefusalIff(m[name], r.payload, alloc);
    AcceptedIff(m[name], r.payload, alloc);
    hide Takes, WellPacked;
  }

  /** A range read answers with just the entries that single reads of the ids in the range answer with, by ascending id. */
  lemma RangeTells(m: Logs, name: string, start: nat, end: nat, clock: nat -> int, es: seq<Entry>, now: int)
    requires start <= end && end - start < U64_MAX && LogReply(m, ReadRange(name, start, end, clock)) == Many(es)
    ensures forall i, j :: 0 <= i < j < |es| ==> es[i].id < es[j].id
    ensures forall e: Entry :: e in es <==> start <= e.id <= end && LogReply(m, Read(name, e.id, now)) == One(e)
  {
    var s := m[name];
    assert es == LogSpec.ReadRange(s, start, end);
    var lo, hi := if start < s.first then s.first else start, if end + 1 < s.NextId() then end + 1 else s.NextId();
    forall e: Entry | start <= e.id <= end && LogReply(m, Read(name, e.id, now)) == One(e) ensures e in es {
      assert es[e.id - lo] == e;
    }
  }

  /** What an operation does to the set of groups, and that it leaves every other group alone. */
  lemma GroupsAfter(m: Logs, op: Op, n: string)
    requires Askable(op)
    ensures n != op.name ==> (n in LogStep(m, op) <==> n in m) && (n in m ==> LogStep(m, op)[n] == m[n])
    ensures op.name in LogStep(m, op) <==> op.Create? || (op.name in m && !op.Drop?)
    ensures op.Create? && op.name !in m ==> LogStep(m, op)[op.name] == EMPTY
    ensures op.name in m && (op.Create? || op.Read? || op.ReadRange? || op.Stats?) ==> LogStep(m, op)[op.name] == m[op.name]
  {
    hide Append, AppendAll, LogSpec.Trim;
  }

  /** The statistics tell how many ids can be read, and which id comes next: the readable ids are the `live` ones below it. */
  lemma StatsTell(m: Logs, name: string, live: nat, segments: nat, nextId: nat)
    requires LogReply(m, Stats(name)) == Counts(live, segments, nextId)
    ensures name in m && segments == m[name].segments && live <= nextId
    ensures forall id: nat, now :: LogReply(m, Read(name, id, now)).One? <==> nextId - live <= id < nextId
    ensures forall r: Record, alloc: Allocator, now, id ::
              LogReply(m, Add(name, r, alloc, now)) == NewId(id) ==> id == nextId
  {
  }

  /** Removing up to an id takes the ids below it, and no other; the next id stays. */
  lemma RemovedIff(m: Logs, name: string, upTo: nat, id: nat, now: int)
    requires name in m
    ensures var m' := LogStep(m, Remove(name, upTo));
            && LogReply(m', Read(name, id, now)) ==
                 (if id < upTo then Refused(G.LogFailed(EntryNotFound)) else LogReply(m, Read(name, id, now)))
            && m'[name].NextId() == m[name].NextId()
  {
  }
}
