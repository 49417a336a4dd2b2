/** Recording and recovery: what replaying the recorded entries rebuilds, and exactly when it does not. */
module Recovery {
  import opened Bytes
  import opened Aof
  import opened LogSpec
  import opened Replay
  import K = KvSpec
  import L = ListSpec
  import M = ManagerSpec
  import opened DbSpec

  // ---- what a replay meets ----

  /** What each of the three replay tasks meets at each of its entries: clock readings, iteration orders, allocators. */
  type Weather = (Category, nat) -> Env

  /** Every allocation succeeds. */
  const FAIR: Env := Env(0, 0, [], _ => true)

  function Fair(): Weather {
    (_, _) => FAIR
  }

  /** The entries of a file, each with what its task meets when it gets there. */
  function Stamp(es: seq<AofEntry>, w: Weather): (r: seq<Stamped>)
    ensures |r| == |es| && forall i :: 0 <= i < |r| ==> r[i].entry == es[i]
    decreases |es|
  {
    if es == [] then []
    else Stamp(es[..|es| - 1], w) + [StampLast(es[..|es| - 1], es[|es| - 1], w)]
  }

  function StampLast(before: seq<AofEntry>, e: AofEntry, w: Weather): (r: Stamped)
    ensures r.entry == e
  {
    Stamped(e, w(CategoryOf(e), |Only(before, CategoryOf, CategoryOf(e))|))
  }

  lemma StampSnoc(es: seq<AofEntry>, e: AofEntry, w: Weather)
    ensures Stamp(es + [e], w) == Stamp(es, w) + [StampLast(es, e, w)]
  {
    assert (es + [e])[..|es|] == es;
  }

  /** What replaying the whole file in order comes to. */
  function Replayed(es: seq<AofEntry>, w: Weather): Replaying {
    ApplyAll(NOT_STARTED, Stamp(es, w))
  }

  /** What it comes to when every allocation succeeds. */
  function Recover(es: seq<AofEntry>): Replaying {
    Replayed(es, Fair())
  }

  lemma ReplayedLast(es: seq<AofEntry>, e: AofEntry, w: Weather)
    ensures Replayed(es + [e], w) == ApplyNext(Replayed(es, w), StampLast(es, e, w))
  {
    hide ApplyNext, ApplyAll, Stamp, StampLast;
    StampSnoc(es, e, w);
    ApplyAllLast(NOT_STARTED, Stamp(es, w), StampLast(es, e, w));
  }

  // ---- allocators that give what is needed ----

  /** The segment the record needs, if it needs a new one, is not refused. */
  predicate Grants(s: Log, payload: bytes, alloc: Allocator) {
    s.cursor + Size(payload) > SEGMENT_SIZE && s.active + 1 >= s.segments ==> alloc(s.segments)
  }

  predicate GrantsAll(s: Log, rs: seq<Record>, alloc: Allocator)
    decreases |rs|
  {
    rs == [] ||
    (Grants(s, rs[0].payload, alloc) && GrantsAll(Append(s, rs[0].timestamp, rs[0].payload, alloc), rs[1..], alloc))
  }

  predicate GrantsEntry(m: M.Logs, x: Stamped) {
    match x.entry
    case LogAdd(n, r) => n in m ==> Grants(m[n], r.payload, x.env.alloc)
    case LogAddRange(n, rs) => n in m ==> GrantsAll(m[n], rs, x.env.alloc)
    case _ => true
  }

  /** No segment needed in the course of the replay is refused. */
  ghost predicate Granted(es: seq<AofEntry>, w: Weather)
    decreases |es|
  {
    es == [] ||
    (var before := es[..|es| - 1];
     Granted(before, w) && GrantsEntry(Replayed(before, w).store.logs, StampLast(before, es[|es| - 1], w)))
  }

  lemma GrantedAppend(s: Log, r: Record, alloc: Allocator)
    requires Grants(s, r.payload, alloc)
    ensures Append(s, r.timestamp, r.payload, alloc) == Append(s, r.timestamp, r.payload, FAIR.alloc)
    ensures Outcome(s, r.payload, alloc) == Outcome(s, r.payload, FAIR.alloc)
  {
  }

  lemma {:induction false} GrantedAppendAll(s: Log, rs: seq<Record>, alloc: Allocator)
    requires GrantsAll(s, rs, alloc)
    ensures M.AppendAll(s, rs, alloc) == M.AppendAll(s, rs, FAIR.alloc)
    ensures M.FirstRefusal(s, rs, alloc) == M.FirstRefusal(s, rs, FAIR.alloc)
    decreases |rs|
  {
    if rs != [] {
      GrantedAppend(s, rs[0], alloc);
      hide Append, Outcome, Grants;
      GrantedAppendAll(Append(s, rs[0].timestamp, rs[0].payload, alloc), rs[1..], alloc);
    }
  }

  lemma GrantedApply(m: M.Logs, x: Stamped)
    requires GrantsEntry(m, x)
    ensures ApplyLog(m, x.entry, x.env.alloc) == ApplyLog(m, x.entry, FAIR.alloc)
    ensures LogPanics(m, x.entry, x.env.alloc) == LogPanics(m, x.entry, FAIR.alloc)
  {
    match x.entry
    case LogAdd(n, r) =>
      if n in m {
        GrantedAppend(m[n], r, x.env.alloc);
      }
    case LogAddRange(n, rs) =>
      if n in m {
        GrantedAppendAll(m[n], rs, x.env.alloc);
      }
    case _ =>
  }

  lemma FairLast(es: seq<AofEntry>, e: AofEntry)
    ensures StampLast(es, e, Fair()) == Stamped(e, FAIR)
  {
  }

  /** The lists never depend on what the replay meets; the logs do not either, as long as no needed segment is
      refused; and so it is with which tasks panic. */
  lemma {:induction false} ReplayedIsRecovered(es: seq<AofEntry>, w: Weather)
    ensures Replayed(es, w).store.lists == Recover(es).store.lists
    ensures OfKv !in Replayed(es, w).down && (OfList in Replayed(es, w).down <==> OfList in Recover(es).down)
    ensures Granted(es, w) ==> Replayed(es, w).store.logs == Recover(es).store.logs && Replayed(es, w).down == Recover(es).down
    decreases |es|
  {
    if es != [] {
      var before, e := es[..|es| - 1], es[|es| - 1];
      assert es == before + [e];
      ReplayedIsRecovered(before, w);
      ReplayedLast(before, e, w);
      ReplayedLast(before, e, Fair());
      FairLast(before, e);
      NextAlike(Replayed(before, w), Recover(before), StampLast(before, e, w));
      hide Replayed, ApplyNext;
      if Granted(es, w) {
        NextSame(Replayed(before, w), Recover(before), StampLast(before, e, w));
      }
    }
  }

  lemma NextAlike(a: Replaying, b: Replaying, x: Stamped)
    requires a.store.lists == b.store.lists && OfKv !in a.down && (OfList in a.down <==> OfList in b.down)
    ensures var a', b' := ApplyNext(a, x), ApplyNext(b, Stamped(x.entry, FAIR));
            a'.store.lists == b'.store.lists && OfKv !in a'.down && (OfList in a'.down <==> OfList in b'.down)
  {
    hide ApplyKv, ApplyList, ApplyLog, LogPanics, ListPanics, Panics;
    OwnPanics(a.store, x);
    OwnPanics(b.store, Stamped(x.entry, FAIR));
  }

  lemma NextSame(a: Replaying, b: Replaying, x: Stamped)
    requires a.store.lists == b.store.lists && a.store.logs == b.store.logs && a.down == b.down && GrantsEntry(a.store.logs, x)
    ensures var a', b' := ApplyNext(a, x), ApplyNext(b, Stamped(x.entry, FAIR));
            a'.store.lists == b'.store.lists && a'.store.logs == b'.store.logs && a'.down == b'.down
  {
    hide ApplyKv, ApplyList, ApplyLog, LogPanics, ListPanics, Panics, GrantsEntry;
    OwnPanics(a.store, x);
    OwnPanics(b.store, Stamped(x.entry, FAIR));
    GrantedApply(a.store.logs, x);
  }

  /** A replayed append panics, and ends the log task, if and only if the record fits a segment and its log was refused
      one before; the server then does not start. */
  lemma ReplayPanicsIff(s: Replaying, n: string, r: Record, env: Env)
    requires OfLog !in s.down && (n in s.store.logs ==> WellPacked(s.store.logs[n]))
    ensures OfLog in ApplyNext(s, Stamped(LogAdd(n, r), env)).down <==>
              n in s.store.logs && Size(r.payload) <= SEGMENT_SIZE && !s.store.logs[n].Usable()
  {
  }

  function FullFile(n: string, k: nat): seq<AofEntry> {
    if k == 0 then [LogCreateGroup(n)] else FullFile(n, k - 1) + [LogAdd(n, FullRecord())]
  }

  function NoSegments(): Weather {
    (_, _) => Env(0, 0, [], NEVER)
  }

  lemma NoSegmentsLast(es: seq<AofEntry>, e: AofEntry)
    ensures StampLast(es, e, NoSegments()) == Stamped(e, Env(0, 0, [], NEVER))
  {
  }

  lemma {:induction false} FullReplay(n: string, k: nat)
    requires k <= INITIAL_SEGMENTS + 1
    ensures Replayed(FullFile(n, k), NoSegments()) == Replaying(Store(map[], map[], map[n := LogSpec.Run(FullSegments(k))]), {})
    decreases k
  {
    hide Replayed, LogSpec.Run, FullSegments, FullRecord, Append, ApplyNext, WellPacked;
    if k == 0 {
      NothingRun();
      FullStart(n);
    } else {
      FullReplay(n, k - 1);
      ReplayedLast(FullFile(n, k - 1), LogAdd(n, FullRecord()), NoSegments());
      NoSegmentsLast(FullFile(n, k - 1), LogAdd(n, FullRecord()));
      FillInitial(k - 1);
      RunRefinesHistory(FullSegments(k - 1));
      FullSegmentsStep(k);
      var s := Replayed(FullFile(n, k - 1), NoSegments());
      ReplayPanicsIff(s, n, FullRecord(), Env(0, 0, [], NEVER));
      FullStep(s, n, FullRecord(), Env(0, 0, [], NEVER));
    }
  }

  lemma FullStart(n: string)
    ensures Replayed([LogCreateGroup(n)], NoSegments()) == Replaying(Store(map[], map[], map[n := EMPTY]), {})
  {
    assert [] + [LogCreateGroup(n)] == [LogCreateGroup(n)];
    ReplayedLast([], LogCreateGroup(n), NoSegments());
    NothingReplayed(NoSegments());
  }

  lemma NothingReplayed(w: Weather)
    ensures Replayed([], w) == NOT_STARTED
  {
  }

  lemma FullStep(s: Replaying, n: string, r: Record, env: Env)
    requires s.down == {} && n in s.store.logs
    ensures var s' := ApplyNext(s, Stamped(LogAdd(n, r), env));
            && s'.store == s.store.(logs := s.store.logs[n := Append(s.store.logs[n], r.timestamp, r.payload, env.alloc)])
            && (OfLog !in s'.down ==> s'.down == {})
  {
    hide Append, Outcome;
  }

  /** Such a panic is reached: ten records of a full segment each, replayed with no more than the initial segments. */
  lemma ReplayPanicReached(n: string)
    ensures OfLog in Replayed(FullFile(n, INITIAL_SEGMENTS + 2), NoSegments()).down
  {
    var k := INITIAL_SEGMENTS + 1;
    FullReplay(n, k);
    FailedAllocationReached();
    RunRefinesHistory(FullSegments(k));
    ReplayedLast(FullFile(n, k), LogAdd(n, FullRecord()), NoSegments());
    NoSegmentsLast(FullFile(n, k), LogAdd(n, FullRecord()));
    hide Replayed, LogSpec.Run, FullSegments;
    ReplayPanicsIff(Replayed(FullFile(n, k), NoSegments()), n, FullRecord(), Env(0, 0, [], NEVER));
  }

  // ---- recovery ----

  /** The same records under the same ids; and, unless an allocation has failed, the same packing. */
  ghost predicate SameLog(a: Log, b: Log) {
    a.first == b.first && a.live == b.live && WellPacked(a) && WellPacked(b) && b.Usable() && (a.Usable() ==> a == b)
  }

  ghost predicate SameLogs(a: M.Logs, b: M.Logs) {
    a.Keys == b.Keys && forall n :: n in a ==> SameLog(a[n], b[n])
  }

  /** A missing key counts as an empty list. */
  ghost predicate SameLists(a: L.Lists, b: L.Lists) {
    forall k :: L.Items(a, k) == L.Items(b, k)
  }

  /** Replaying what has been recorded gives back what is there. */
  ghost predicate Recoverable(s: Db) {
    var r := Recover(s.aof);
    r.down == {} && SameLists(s.lists, r.store.lists) && SameLogs(s.logs, r.store.logs)
  }

  /** The operation does part of its work, then fails: the part stays and is not recorded. */
  predicate FailsMidway(s: Db, op: DbOp) {
    match op
    case AddRange(n, rs, alloc) =>
      n in s.logs && rs != [] && Takes(s.logs[n], rs[0].payload, alloc) && !TakesAll(s.logs[n], rs, alloc)
    case PushRange(k, ps) => ps != [] && L.Fits(ps[0]) && exists i :: 0 <= i < |ps| && !L.Fits(ps[i])
    case PopCount(k, count) => 0 < |L.Items(s.lists, k)| <= count
    case _ => false
  }

  // ---- lists ----

  /** Two sides that agree still do once the same key holds the same items on both. */
  lemma SameAfter(a: L.Lists, b: L.Lists, a': L.Lists, b': L.Lists, k: string)
    requires SameLists(a, b) && (a' == a || (k in a' && a' == a[k := a'[k]])) && (b' == b || (k in b' && b' == b[k := b'[k]]))
    requires L.Items(a, k) == L.Items(b, k) ==> L.Items(a', k) == L.Items(b', k)
    ensures SameLists(a', b')
  {
    assert L.Items(a, k) == L.Items(b, k);
    forall x | x != k ensures L.Items(a', x) == L.Items(b', x) {
      assert L.Items(a, x) == L.Items(b, x);
    }
  }

  lemma PushRangeSame(a: L.Lists, b: L.Lists, k: string, ps: seq<bytes>)
    requires L.Items(a, k) == L.Items(b, k)
    ensures L.Items(L.PushRange(a, k, ps), k) == L.Items(L.PushRange(b, k, ps), k)
    ensures L.PushRangeReply(ps).Err? && (ps == [] || !L.Fits(ps[0]) || forall i :: 0 <= i < |ps| ==> L.Fits(ps[i])) ==>
      L.PushRange(a, k, ps) == a
  {
  }

  lemma PopRangeSame(a: L.Lists, b: L.Lists, k: string, start: nat, end: nat)
    requires L.Items(a, k) == L.Items(b, k)
    ensures L.Items(L.PopRange(a, k, start, end), k) == L.Items(L.PopRange(b, k, start, end), k)
    ensures if L.Drainable(a, k, start, end) && L.PopRangeReply(a, k, start, end).Ok? then L.Drainable(b, k, start, end)
            else L.PopRange(a, k, start, end) == a
  {
    if k in a && start <= end <= |a[k]| {
      assert a[k] == [] ==> a[k][..start] + a[k][end..] == [];
    }
    if k in b && start <= end <= |b[k]| {
      assert b[k] == [] ==> b[k][..start] + b[k][end..] == [];
    }
  }

  lemma PopCountSame(a: L.Lists, b: L.Lists, k: string, count: nat)
    requires L.Items(a, k) == L.Items(b, k) && !(0 < |L.Items(a, k)| <= count)
    ensures L.Items(L.PopCount(a, k, count), k) == L.Items(L.PopCount(b, k, count), k)
    ensures L.PopCountReply(a, k, count).Err? ==> L.PopCount(a, k, count) == a
  {
  }

  /** The step taken on both sides leaves the same items under the key, if they were the same before. */
  lemma ListItemsSame(a: L.Lists, b: L.Lists, op: DbOp, s: Db)
    requires s.lists == a && !FailsMidway(s, op) && Target(op) == OfList && L.Items(a, op.key) == L.Items(b, op.key)
    ensures var b' := if Error(s, op).None? && Recorded(op) != [] then ApplyList(b, Recorded(op)[0]) else b;
            L.Items(ListsAfter(a, op), op.key) == L.Items(b', op.key)
    ensures Error(s, op).None? && Recorded(op) != [] ==> !ListPanics(b, Recorded(op)[0])
  {
    hide L.PushRange, L.PushRangeReply, L.PopRange, L.PopRangeReply, L.Drainable, L.Fitting, L.PopCount, L.PopCountReply;
    match op {
      case PushRange(k, ps) => PushRangeSame(a, b, k, ps);
      case PopRange(k, start, end) => PopRangeSame(a, b, k, start, end);
      case PopCount(k, count) => PopCountSame(a, b, k, count);
      case _ =>
    }
  }

  lemma OnlyItsKey(a: L.Lists, op: DbOp)
    requires Target(op) == OfList
    ensures var a' := ListsAfter(a, op); a' == a || (op.key in a' && a' == a[op.key := a'[op.key]])
    ensures Recorded(op) != [] ==>
      var a' := ApplyList(a, Recorded(op)[0]); a' == a || (op.key in a' && a' == a[op.key := a'[op.key]])
  {
    hide L.Fitting;
  }

  lemma ListStepSame(a: L.Lists, b: L.Lists, op: DbOp, s: Db)
    requires SameLists(a, b) && s.lists == a && !FailsMidway(s, op) && Target(op) == OfList
    ensures var b' := if Error(s, op).None? && Recorded(op) != [] then ApplyList(b, Recorded(op)[0]) else b;
            SameLists(ListsAfter(a, op), b')
    ensures Error(s, op).None? && Recorded(op) != [] ==> !ListPanics(b, Recorded(op)[0])
  {
    var b' := if Error(s, op).None? && Recorded(op) != [] then ApplyList(b, Recorded(op)[0]) else b;
    var k := op.key;
    assert L.Items(a, k) == L.Items(b, k);
    RecordedOne(op);
    OnlyItsKey(a, op);
    OnlyItsKey(b, op);
    ListItemsSame(a, b, op, s);
    hide SameLists, ListsAfter, ApplyList, ListPanics, Error, Recorded, L.Items;
    SameAfter(a, b, ListsAfter(a, op), b', k);
  }

  lemma ListMidwayDiffers(a: L.Lists, b: L.Lists, op: DbOp, s: Db)
    requires SameLists(a, b) && s.lists == a && FailsMidway(s, op) && Target(op) == OfList
    ensures Error(s, op).Some? && !SameLists(ListsAfter(a, op), b)
  {
    var k := op.key;
    assert L.Items(a, k) == L.Items(b, k);
    assert |L.Items(ListsAfter(a, op), k)| != |L.Items(a, k)|;
  }

  // ---- logs ----

  lemma AppendSame(a: Log, b: Log, r: Record, alloc: Allocator)
    requires SameLog(a, b)
    ensures Outcome(a, r.payload, alloc).Id? ==> Outcome(b, r.payload, FAIR.alloc).Id?
    ensures var a' := Append(a, r.timestamp, r.payload, alloc);
            if Outcome(a, r.payload, alloc).Id?
            then SameLog(a', Append(b, r.timestamp, r.payload, FAIR.alloc)) && |a'.live| == |a.live| + 1
            else SameLog(a', b) && a'.live == a.live
  {
    AppendKeepsPacking(a, r.timestamp, r.payload, alloc);
    AppendKeepsPacking(b, r.timestamp, r.payload, FAIR.alloc);
  }

  lemma {:induction false} AppendAllSame(a: Log, b: Log, rs: seq<Record>, alloc: Allocator)
    requires SameLog(a, b) && M.FirstRefusal(a, rs, alloc).None?
    ensures SameLog(M.AppendAll(a, rs, alloc), M.AppendAll(b, rs, FAIR.alloc)) && M.FirstRefusal(b, rs, FAIR.alloc).None?
    decreases |rs|
  {
    if rs != [] {
      AppendSame(a, b, rs[0], alloc);
      assert Outcome(b, rs[0].payload, FAIR.alloc).Id?;
      hide SameLog;
      AppendAllSame(Append(a, rs[0].timestamp, rs[0].payload, alloc), Append(b, rs[0].timestamp, rs[0].payload, FAIR.alloc),
                    rs[1..], alloc);
    }
  }

  lemma {:induction false} AppendAllGrows(a: Log, rs: seq<Record>, alloc: Allocator)
    ensures |M.AppendAll(a, rs, alloc).live| >= |a.live|
    ensures rs != [] && Outcome(a, rs[0].payload, alloc).Id? ==> |M.AppendAll(a, rs, alloc).live| > |a.live|
    decreases |rs|
  {
    if rs != [] {
      AppendAllGrows(Append(a, rs[0].timestamp, rs[0].payload, alloc), rs[1..], alloc);
    }
  }

  lemma TrimSame(a: Log, b: Log, upTo: nat)
    requires SameLog(a, b)
    ensures SameLog(LogSpec.Trim(a, upTo), LogSpec.Trim(b, upTo))
  {
  }

  lemma EmptySame()
    ensures SameLog(EMPTY, EMPTY)
  {
  }

  /** Changing one group alike on both sides leaves the sides alike. */
  lemma SameLogsAfter(a: M.Logs, b: M.Logs, n: string, x: Log, y: Log)
    requires SameLogs(a, b) && n in a && SameLog(x, y)
    ensures n in b && SameLogs(a[n := x], b[n := y])
  {
    hide SameLog;
  }

  lemma SameSelf(a: M.Logs, b: M.Logs, n: string)
    requires SameLogs(a, b) && n in a
    ensures n in b && SameLog(a[n], b[n]) && a[n := a[n]] == a && b[n := b[n]] == b
  {
  }

  lemma RangeStepSame(a: M.Logs, b: M.Logs, op: DbOp, s: Db)
    requires SameLogs(a, b) && s.logs == a && !FailsMidway(s, op) && op.AddRange? && op.name in a && op.records != []
    ensures var b' := if Error(s, op).None? then ApplyLog(b, Recorded(op)[0], FAIR.alloc) else b;
            SameLogs(LogsAfter(a, op), b')
    ensures Error(s, op).None? ==> !LogPanics(b, Recorded(op)[0], FAIR.alloc)
  {
    hide SameLog, SameLogs, Append, Outcome, Takes, TakesAll;
    var n, rs := op.name, op.records;
    SameSelf(a, b, n);
    AcceptedIff(a[n], rs[0].payload, op.alloc);
    M.RangeRefusedIff(a[n], rs, op.alloc);
    if M.FirstRefusal(a[n], rs, op.alloc).None? {
      AppendAllSame(a[n], b[n], rs, op.alloc);
      SameLogsAfter(a, b, n, M.AppendAll(a[n], rs, op.alloc), M.AppendAll(b[n], rs, FAIR.alloc));
    } else {
      AppendSame(a[n], b[n], rs[0], op.alloc);
      SameLogsAfter(a, b, n, M.AppendAll(a[n], rs, op.alloc), b[n]);
    }
  }

  lemma LogStepSame(a: M.Logs, b: M.Logs, op: DbOp, s: Db)
    requires SameLogs(a, b) && s.logs == a && !FailsMidway(s, op) && Target(op) == OfLog
    ensures var b' := if Error(s, op).None? then ApplyLog(b, Recorded(op)[0], FAIR.alloc) else b;
            SameLogs(LogsAfter(a, op), b')
    ensures Error(s, op).None? ==> !LogPanics(b, Recorded(op)[0], FAIR.alloc)
  {
    hide SameLog, M.FirstRefusal, Append, Outcome, LogSpec.Trim;
    match op
    case Create(_) => EmptySame();
    case Drop(_) =>
    case Add(n, r, alloc) =>
      if n in a {
        AppendSame(a[n], b[n], r, alloc);
      }
    case AddRange(n, rs, alloc) =>
      if n in a && rs != [] {
        RangeStepSame(a, b, op, s);
      }
    case Trim(n, upTo) =>
      if n in a {
        TrimSame(a[n], b[n], upTo);
      }
  }

  lemma LogMidwayDiffers(a: M.Logs, b: M.Logs, op: DbOp, s: Db)
    requires SameLogs(a, b) && s.logs == a && FailsMidway(s, op) && Target(op) == OfLog
    ensures Error(s, op).Some? && !SameLogs(LogsAfter(a, op), b)
  {
    var n := op.name;
    AcceptedIff(a[n], op.records[0].payload, op.alloc);
    M.RangeRefusedIff(a[n], op.records, op.alloc);
    AppendAllGrows(a[n], op.records, op.alloc);
    hide Takes, TakesAll;
    assert SameLog(a[n], b[n]);
    assert !SameLog(LogsAfter(a, op)[n], b[n]);
  }

  // ---- steps and runs ----

  lemma RecoverLast(es: seq<AofEntry>, e: AofEntry)
    ensures Recover(es + [e]) == ApplyNext(Recover(es), Stamped(e, FAIR))
  {
    hide ApplyNext, Replayed;
    ReplayedLast(es, e, Fair());
    FairLast(es, e);
  }

  /** What is recorded touches the store the operation works on, and no other. */
  lemma RecordedOne(op: DbOp)
    ensures Recorded(op) != [] ==> CategoryOf(Recorded(op)[0]) == Target(op)
    ensures |Recorded(op)| <= 1 && (Target(op) == OfLog ==> Recorded(op) != [])
  {
  }

  /** The operation writes to the file. */
  predicate Records(s: Db, op: DbOp) {
    Error(s, op).None? && Recorded(op) != []
  }

  /** The recovered stores after a step: the recorded entry, if any, applied to the store it concerns. */
  lemma RecoverStep(s: Db, op: DbOp)
    requires Recover(s.aof).down == {}
    ensures var r, r' := Recover(s.aof), Recover(After(s, op).aof);
            if Records(s, op) then r' == ApplyNext(r, Stamped(Recorded(op)[0], FAIR)) else r' == r
  {
    RecordedOne(op);
    hide Error, Recorded, ApplyNext, ListsAfter, LogsAfter, KvAfter;
    if Records(s, op) {
      assert Recorded(op) == [Recorded(op)[0]];
      RecoverLast(s.aof, Recorded(op)[0]);
    } else if Error(s, op).None? {
      assert s.aof + Recorded(op) == s.aof;
    }
  }

  lemma NextList(r: Replaying, e: AofEntry)
    requires r.down == {} && CategoryOf(e) == OfList && !ListPanics(r.store.lists, e)
    ensures ApplyNext(r, Stamped(e, FAIR)) == Replaying(r.store.(lists := ApplyList(r.store.lists, e)), {})
  {
    hide ApplyList;
  }

  lemma NextLog(r: Replaying, e: AofEntry)
    requires r.down == {} && CategoryOf(e) == OfLog && !LogPanics(r.store.logs, e, FAIR.alloc)
    ensures ApplyNext(r, Stamped(e, FAIR)) == Replaying(r.store.(logs := ApplyLog(r.store.logs, e, FAIR.alloc)), {})
  {
    hide ApplyLog, Outcome, M.FirstRefusal;
  }

  lemma NextKv(r: Replaying, e: AofEntry)
    requires r.down == {} && CategoryOf(e) == OfKv
    ensures ApplyNext(r, Stamped(e, FAIR)) == Replaying(r.store.(kv := ApplyKv(r.store.kv, e, FAIR)), {})
  {
    hide ApplyKv, Outcome, M.FirstRefusal;
  }

  lemma StepRecoverable(s: Db, op: DbOp)
    requires Recoverable(s) && !FailsMidway(s, op)
    ensures Recoverable(After(s, op))
  {
    var r := Recover(s.aof);
    RecoverStep(s, op);
    RecordedOne(op);
    OneStore(s, op);
    hide SameLists, SameLogs, Recover, Error, ApplyList, ApplyLog, ApplyKv, ApplyNext, Recorded, FailsMidway;
    if Target(op) == OfList {
      ListStepSame(s.lists, r.store.lists, op, s);
      if Records(s, op) {
        NextList(r, Recorded(op)[0]);
      }
    } else if Target(op) == OfLog {
      LogStepSame(s.logs, r.store.logs, op, s);
      if Records(s, op) {
        NextLog(r, Recorded(op)[0]);
      }
    } else if Records(s, op) {
      NextKv(r, Recorded(op)[0]);
    }
  }

  lemma MidwayNotRecoverable(s: Db, op: DbOp)
    requires Recoverable(s) && FailsMidway(s, op)
    ensures !Recoverable(After(s, op))
  {
    var r := Recover(s.aof);
    RecoverStep(s, op);
    hide SameLists, SameLogs, Recover, Error, ApplyNext, Recorded;
    if Target(op) == OfList {
      ListMidwayDiffers(s.lists, r.store.lists, op, s);
    } else {
      assert Target(op) == OfLog;
      LogMidwayDiffers(s.logs, r.store.logs, op, s);
    }
  }

  /** From a recoverable state, a step stays recoverable if and only if it does not fail midway. */
  lemma StepRecoverableIff(s: Db, op: DbOp)
    requires Recoverable(s)
    ensures Recoverable(After(s, op)) <==> !FailsMidway(s, op)
  {
    hide Recoverable, After, FailsMidway;
    if FailsMidway(s, op) {
      MidwayNotRecoverable(s, op);
    } else {
      StepRecoverable(s, op);
    }
  }

  // ---- restarts ----

  /** The running database and the file behind it; the record is what a loader would see in the file. */
  datatype Alive = Alive(db: Db, file: File)

  const BORN: Alive := Alive(START, NO_FILE)

  /** What happens in the course of a life: an operation, or an end and a new start on what is left of the file. */
  datatype Event = Do(op: DbOp) | Restart(left: File, w: Weather)

  function Done(a: Alive, op: DbOp): Alive {
    var s := After(a.db, op);
    var f := if Records(a.db, op) then Wrote(a.file, Recorded(op)[0]) else a.file;
    Alive(s.(aof := Visible(f)), f)
  }

  function Restarted(left: File, w: Weather): Alive {
    var r := Replayed(Visible(left), w).store;
    Alive(Db(r.kv, r.lists, r.logs, Visible(left)), left)
  }

  function Happened(a: Alive, e: Event): Alive {
    match e
    case Do(op) => Done(a, op)
    case Restart(left, w) => Restarted(left, w)
  }

  function Life(a: Alive, events: seq<Event>): Alive
    decreases |events|
  {
    if events == [] then a else Happened(Life(a, events[..|events| - 1]), events[|events| - 1])
  }

  /** The operation does not fail midway, and does not write behind a torn line; a restart finds what a crash can
      leave, and is not refused a segment it needs. */
  ghost predicate SmoothStep(a: Alive, e: Event) {
    match e
    case Do(op) => !FailsMidway(a.db, op) && (Records(a.db, op) ==> a.file.tail.Clean?)
    case Restart(left, w) => LeftBy(a.file, left) && Granted(Visible(left), w)
  }

  ghost predicate Smooth(a: Alive, events: seq<Event>)
    decreases |events|
  {
    events == [] ||
    (var before := events[..|events| - 1]; Smooth(a, before) && SmoothStep(Life(a, before), events[|events| - 1]))
  }

  ghost predicate Sane(a: Alive) {
    Recoverable(a.db) && a.db.aof == Visible(a.file)
  }

  lemma DoneIsAfter(a: Alive, op: DbOp)
    requires a.db.aof == Visible(a.file) && (Records(a.db, op) ==> a.file.tail.Clean?)
    ensures Done(a, op).db == After(a.db, op)
  {
    RecordedOne(op);
    hide Error, Recorded, KvAfter, ListsAfter, LogsAfter, Visible, Wrote;
    if Records(a.db, op) {
      WriteIsSeenIff(a.file, Recorded(op)[0]);
      assert Recorded(op) == [Recorded(op)[0]];
    } else if Error(a.db, op).None? {
      assert a.db.aof + Recorded(op) == a.db.aof;
    }
  }

  /** Recovered logs and lists can be recovered again. */
  lemma RecoveredAgain(es: seq<AofEntry>, lists: L.Lists, logs: M.Logs, kv: K.Kv)
    requires Recoverable(Db(kv, lists, logs, es))
    ensures var r := Recover(es).store; Recoverable(Db(r.kv, r.lists, r.logs, es))
  {
    hide Recover;
  }

  /** A restart on a file whose entries were all of the record at some sane point comes to a sane state, with the
      lists and the logs of that point. */
  lemma RestartSane(p: Db, left: File, w: Weather)
    requires Recoverable(p) && p.aof == Visible(left) && Granted(Visible(left), w)
    ensures var t := Restarted(left, w);
            && Sane(t) && Replayed(Visible(left), w).down == {}
            && SameLists(p.lists, t.db.lists) && SameLogs(p.logs, t.db.logs)
  {
    ReplayedIsRecovered(Visible(left), w);
    hide Replayed, Granted, Visible;
    RecoveredAgain(p.aof, p.lists, p.logs, p.kv);
  }

  lemma BornSane()
    ensures Sane(BORN)
  {
    assert Recover([]) == NOT_STARTED;
    assert Visible(NO_FILE) == [];
  }

  lemma {:induction false} LifeSeen(events: seq<Event>)
    ensures Life(BORN, events).db.aof == Visible(Life(BORN, events).file)
  {
    hide After, Visible, Replayed, Wrote;
    if events == [] {
      BornSane();
    }
  }

  /** Every prefix of the record was all of it at some point of the life. */
  lemma {:induction false} PrefixWasWhole(events: seq<Event>, es: seq<AofEntry>) returns (j: nat)
    requires Smooth(BORN, events) && es <= Life(BORN, events).db.aof
    ensures j <= |events| && Life(BORN, events[..j]).db.aof == es
    decreases |events|
  {
    var a := Life(BORN, events);
    if es == a.db.aof {
      j := |events|;
      assert events[..j] == events;
    } else {
      assert events != [] by {
        BornSane();
      }
      var before, e := events[..|events| - 1], events[|events| - 1];
      LifeSeen(before);
      RecordGrows(Life(BORN, before), e);
      hide Smooth, SmoothStep, Happened, Life;
      j := PrefixWasWhole(before, es);
      assert before[..j] == events[..j];
    }
  }

  /** A smooth step adds at most one entry to the record, or cuts it short. */
  lemma RecordGrows(a: Alive, e: Event)
    requires SmoothStep(a, e) && a.db.aof == Visible(a.file)
    ensures var es := Happened(a, e).db.aof; es <= a.db.aof || (|es| == |a.db.aof| + 1 && a.db.aof <= es)
  {
    hide FailsMidway, Granted, Visible, Replayed;
    match e
    case Do(op) =>
      DoneIsAfter(a, op);
      RecordedOne(op);
      hide Error, Recorded, KvAfter, ListsAfter, LogsAfter;
    case Restart(left, w) => LeftIsPrefix(a.file, left);
  }

  lemma {:induction false} SmoothBefore(a: Alive, events: seq<Event>, j: nat)
    requires Smooth(a, events) && j <= |events|
    ensures Smooth(a, events[..j])
    decreases |events|
  {
    hide Life, SmoothStep;
    if j == |events| {
      assert events[..j] == events;
    } else {
      var before := events[..|events| - 1];
      SmoothBefore(a, before, j);
      assert before[..j] == events[..j];
    }
  }

  lemma {:induction false} LifeSane(events: seq<Event>)
    requires Smooth(BORN, events)
    ensures Sane(Life(BORN, events))
    decreases |events|
  {
    if events == [] {
      BornSane();
    } else {
      var before, e := events[..|events| - 1], events[|events| - 1];
      LifeSane(before);
      var a := Life(BORN, before);
      match e
      case Do(op) =>
        hide Recoverable, FailsMidway, After;
        StepRecoverableIff(a.db, op);
        DoneIsAfter(a, op);
        LifeSeen(events);
      case Restart(left, w) =>
        hide Recoverable, Restarted, Visible, LeftBy, Granted;
        LeftIsPrefix(a.file, left);
        var j := PrefixWasWhole(before, Visible(left));
        SmoothBefore(BORN, before, j);
        LifeSane(before[..j]);
        RestartSane(Life(BORN, before[..j]).db, left, w);
    }
  }

  /** The lists and the logs are those after the first `j` events. */
  ghost predicate AsAfter(events: seq<Event>, j: nat, st: Store)
    requires j <= |events|
  {
    var s := Life(BORN, events[..j]).db;
    SameLists(s.lists, st.lists) && SameLogs(s.logs, st.logs)
  }

  /** The lists and the logs are those of a point where just `es` had been recorded; of the end, if that is all of it. */
  ghost predicate AsRecorded(events: seq<Event>, es: seq<AofEntry>, st: Store) {
    && (exists j: nat | j <= |events| :: Life(BORN, events[..j]).db.aof == es && AsAfter(events, j, st))
    && (es == Life(BORN, events).db.aof ==> AsAfter(events, |events|, st))
  }

  lemma RecoveredAt(events: seq<Event>, j: nat, es: seq<AofEntry>, w: Weather)
    requires Smooth(BORN, events) && j <= |events| && Life(BORN, events[..j]).db.aof == es && Granted(es, w)
    ensures Replayed(es, w).down == {} && AsAfter(events, j, Replayed(es, w).store)
  {
    hide Life, Smooth, Granted, Replayed, SameLists, SameLogs;
    SmoothBefore(BORN, events, j);
    LifeSane(events[..j]);
    ReplayedIsRecovered(es, w);
  }

  /** A life is any run of operations, crashes that leave only part of the file, perhaps torn, and restarts, in which
      nothing fails midway and nothing is written behind a torn line. After it and one more crash, replaying what is
      left by its three category tasks, taking turns in any order, panics nowhere and rebuilds the groups, live
      entries, next ids and list contents there were at a point where that much had been recorded; those of the end,
      if the crash lost nothing. It takes allocators that do not refuse a segment that is needed. */
  lemma CrashRecovery(events: seq<Event>, left: File, w: Weather, schedule: seq<Category>)
    requires Smooth(BORN, events) && LeftBy(Life(BORN, events).file, left) && Granted(Visible(left), w)
    ensures var t := Follow(Split(NOT_STARTED, Stamp(Visible(left), w)), schedule);
            t.Done() ==> t.down == {} && AsRecorded(events, Visible(left), t.store)
  {
    hide Life, Smooth, Granted, Stamp, Follow, LeftBy, AsAfter, Visible, ApplyAll;
    LifeSeen(events);
    LeftIsPrefix(Life(BORN, events).file, left);
    PrefixRecovered(events, Visible(left), w);
    ReplayIsConfluent(NOT_STARTED, Stamp(Visible(left), w), schedule);
  }

  lemma PrefixRecovered(events: seq<Event>, es: seq<AofEntry>, w: Weather)
    requires Smooth(BORN, events) && es <= Life(BORN, events).db.aof && Granted(es, w)
    ensures Replayed(es, w).down == {} && AsRecorded(events, es, Replayed(es, w).store)
  {
    hide Life, Smooth, Granted, Replayed, AsAfter;
    var j := PrefixWasWhole(events, es);
    RecoveredAt(events, j, es, w);
    if es == Life(BORN, events).db.aof {
      assert events[..|events|] == events;
      RecoveredAt(events, |events|, es, w);
    }
  }

  /** The stores are those of every smooth life whose record began with just these entries. */
  ghost predicate Rebuilt(es: seq<AofEntry>, st: Store) {
    forall events :: Smooth(BORN, events) && es <= Life(BORN, events).db.aof ==> AsRecorded(events, es, st)
  }

  lemma ReplayRebuilds(es: seq<AofEntry>, w: Weather, schedule: seq<Category>)
    ensures var t := Follow(Split(NOT_STARTED, Stamp(es, w)), schedule); Granted(es, w) && t.Done() ==> Rebuilt(es, t.store)
  {
    hide AsRecorded, Life, Smooth, Follow, Granted, Stamp, ApplyAll;
    ReplayIsConfluent(NOT_STARTED, Stamp(es, w), schedule);
    if Granted(es, w) {
      forall events | Smooth(BORN, events) && es <= Life(BORN, events).db.aof
        ensures AsRecorded(events, es, Replayed(es, w).store) {
        PrefixRecovered(events, es, w);
      }
    }
  }

  /** The entries of one category, each with what its task meets. */
  function Each(q: seq<AofEntry>, c: Category, w: Weather): (r: seq<Stamped>)
    ensures |r| == |q| && forall i :: 0 <= i < |r| ==> r[i] == Stamped(q[i], w(c, i))
  {
    seq(|q|, i requires 0 <= i < |q| => Stamped(q[i], w(c, i)))
  }

  lemma EachLast(q: seq<AofEntry>, e: AofEntry, c: Category, w: Weather)
    ensures Each(q + [e], c, w) == Each(q, c, w) + [Stamped(e, w(c, |q|))]
  {
  }

  /** Sorting the entries by category and then stamping them gives the three tasks. */
  lemma {:induction false} StampOnly(es: seq<AofEntry>, c: Category, w: Weather)
    ensures Only(Stamp(es, w), CategoryIn, c) == Each(Only(es, CategoryOf, c), c, w)
    decreases |es|
  {
    hide Only, Stamp, CategoryOf;
    if es == [] {
      NoneStamped(c, w);
    } else {
      var before, e := es[..|es| - 1], es[|es| - 1];
      StampOnly(before, c, w);
      assert es == before + [e];
      OnlyLast(before, e, CategoryOf, c);
      OnlyLast(Stamp(before, w), StampLast(before, e, w), CategoryIn, c);
      StampSnoc(before, e, w);
      EachLast(Only(before, CategoryOf, c), e, c, w);
    }
  }

  lemma NoneStamped(c: Category, w: Weather)
    ensures Only(Stamp([], w), CategoryIn, c) == Each(Only([], CategoryOf, c), c, w) == []
  {
  }

  lemma OneItem(k: string, p: bytes)
    requires L.Fits(p)
    ensures !FailsMidway(START, Push(k, p)) && FailsMidway(After(START, Push(k, p)), PopCount(k, 1))
  {
  }

  /** A midway failure is reached from the start: one item, and a counted pop that asks for two. */
  lemma MidwayFailureReached(k: string, p: bytes)
    requires L.Fits(p)
    ensures var s := After(START, Push(k, p)); var op := PopCount(k, 1);
            FailsMidway(s, op) && Recoverable(s) && !Recoverable(After(s, op))
  {
    hide Recoverable, After, FailsMidway;
    OneItem(k, p);
    BornSane();
    StepRecoverableIff(START, Push(k, p));
    StepRecoverableIff(After(START, Push(k, p)), PopCount(k, 1));
  }
}
