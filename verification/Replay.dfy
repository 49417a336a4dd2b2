/** Replaying the append-only file: one store per category, any interleaving. */
module Replay {
  import opened Bytes
  import opened Aof
  import opened LogSpec
  import K = KvSpec
  import L = ListSpec
  import M = ManagerSpec

  /** The three stores, the caches in front of the logs left out. */
  datatype Store = Store(kv: K.Kv, lists: L.Lists, logs: M.Logs)

  const EMPTY_STORE: Store := Store(map[], map[], map[])

  /** What a replay step meets outside the file: two clock readings, an iteration order, an allocator. */
  datatype Env = Env(now: int, used: int, order: seq<string>, alloc: Allocator)

  datatype Stamped = Stamped(entry: AofEntry, env: Env)

  function CategoryIn(x: Stamped): Category {
    CategoryOf(x.entry)
  }

  function ApplyKv(kv: K.Kv, e: AofEntry, env: Env): K.Kv {
    match e
    case KvSet(d, k, v, ttl) => K.Set(kv, d, k, v, ttl, env.now, env.used, env.order)
    case KvDel(d, k) => K.Del(kv, d, k)
    case KvFlush(d) => K.Flush(kv, d)
    case _ => kv
  }

  function ApplyLog(logs: M.Logs, e: AofEntry, alloc: Allocator): M.Logs {
    match e
    case LogCreateGroup(n) => M.LogStep(logs, M.Create(n))
    case LogDropGroup(n) => M.LogStep(logs, M.Drop(n))
    case LogAdd(n, r) => M.LogStep(logs, M.Add(n, r, alloc, 0))
    case LogAddRange(n, rs) => M.LogStep(logs, M.AddRange(n, rs, alloc, _ => 0))
    case LogRemove(n, upTo) => M.LogStep(logs, M.Remove(n, upTo))
    case _ => logs
  }

  function ApplyList(m: L.Lists, e: AofEntry): L.Lists {
    match e
    case ListPush(k, p) => L.Push(m, k, p)
    case ListPushRange(k, ps) => L.PushRange(m, k, ps)
    case ListPop(k) => L.Pop(m, k)
    case ListPopRange(k, start, end) => L.PopRange(m, k, start, end)
    case ListPopCount(k, count) => L.PopCount(m, k, count)
    case ListFlush(k) => L.Flush(m, k)
    case _ => m
  }

  /** `apply_aof`: errors are ignored. */
  function Apply(s: Store, x: Stamped): Store {
    match CategoryOf(x.entry)
    case OfKv => s.(kv := ApplyKv(s.kv, x.entry, x.env))
    case OfList => s.(lists := ApplyList(s.lists, x.entry))
    case OfLog => s.(logs := ApplyLog(s.logs, x.entry, x.env.alloc))
  }

  /** Appending to a log whose segment was refused panics, and so ... */
  predicate LogPanics(m: M.Logs, e: AofEntry, alloc: Allocator) {
    match e
    case LogAdd(n, r) => n in m && Outcome(m[n], r.payload, alloc).Panicked?
    case LogAddRange(n, rs) => n in m && M.FirstRefusal(m[n], rs, alloc) == Some(Panicked)
    case _ => false
  }

  /** ... does draining a range that runs backwards. */
  predicate ListPanics(m: L.Lists, e: AofEntry) {
    e.ListPopRange? && !L.Drainable(m, e.key, e.start, e.end)
  }

  predicate Panics(s: Store, x: Stamped) {
    LogPanics(s.logs, x.entry, x.env.alloc) || ListPanics(s.lists, x.entry)
  }

  /** The stores, and the categories whose task has panicked: their remaining entries are never applied. */
  datatype Replaying = Replaying(store: Store, down: set<Category>)

  const NOT_STARTED: Replaying := Replaying(EMPTY_STORE, {})

  function ApplyNext(s: Replaying, x: Stamped): Replaying {
    if CategoryIn(x) in s.down then s
    else Replaying(Apply(s.store, x), if Panics(s.store, x) then s.down + {CategoryIn(x)} else s.down)
  }

  /** The whole file in order. */
  function ApplyAll(s: Replaying, es: seq<Stamped>): Replaying
    decreases |es|
  {
    if es == [] then s else ApplyAll(ApplyNext(s, es[0]), es[1..])
  }

  /** What panics is an entry of its own category. */
  lemma OwnPanics(s: Store, x: Stamped)
    ensures Panics(s, x) == match CategoryOf(x.entry)
              case OfKv => false
              case OfList => ListPanics(s.lists, x.entry)
              case OfLog => LogPanics(s.logs, x.entry, x.env.alloc)
  {
    hide Outcome, M.FirstRefusal;
  }

  // ---- the three replay tasks, interleaved ----

  ghost predicate AllOf(q: seq<Stamped>, c: Category) {
    forall i :: 0 <= i < |q| ==> CategoryIn(q[i]) == c
  }

  datatype Tasks = Tasks(store: Store, kv: seq<Stamped>, list: seq<Stamped>, log: seq<Stamped>, down: set<Category>) {
    function Queue(c: Category): seq<Stamped> {
      match c
      case OfKv => kv
      case OfList => list
      case OfLog => log
    }

    function WithQueue(c: Category, q: seq<Stamped>): Tasks {
      match c
      case OfKv => this.(kv := q)
      case OfList => this.(list := q)
      case OfLog => this.(log := q)
    }

    predicate Done() {
      kv == [] && list == [] && log == []
    }

    ghost predicate Ok() {
      && AllOf(kv, OfKv) && AllOf(list, OfList) && AllOf(log, OfLog)
      && (forall c :: c in down ==> Queue(c) == [])
    }
  }

  /** The replay task of category `c` applies its next entry, if it has one left; a panic ends it. */
  function Advance(t: Tasks, c: Category): Tasks {
    var q := t.Queue(c);
    if q == [] then t
    else
      var s := Apply(t.store, q[0]);
      if Panics(t.store, q[0]) then t.(store := s, down := t.down + {c}).WithQueue(c, [])
      else t.(store := s).WithQueue(c, q[1..])
  }

  function Follow(t: Tasks, schedule: seq<Category>): Tasks
    decreases |schedule|
  {
    if schedule == [] then t else Follow(Advance(t, schedule[0]), schedule[1..])
  }

  lemma AdvanceOk(t: Tasks, c: Category)
    requires t.Ok()
    ensures Advance(t, c).Ok()
  {
    hide Apply, Panics, CategoryIn;
  }

  // ---- each store sees only its own category ----

  function FoldKv(kv: K.Kv, q: seq<Stamped>): K.Kv
    decreases |q|
  {
    if q == [] then kv else FoldKv(ApplyKv(kv, q[0].entry, q[0].env), q[1..])
  }

  function FoldList(m: L.Lists, q: seq<Stamped>): L.Lists
    decreases |q|
  {
    if q == [] then m
    else if ListPanics(m, q[0].entry) then ApplyList(m, q[0].entry)
    else FoldList(ApplyList(m, q[0].entry), q[1..])
  }

  predicate ListGoesDown(m: L.Lists, q: seq<Stamped>)
    decreases |q|
  {
    q != [] && (ListPanics(m, q[0].entry) || ListGoesDown(ApplyList(m, q[0].entry), q[1..]))
  }

  function FoldLog(m: M.Logs, q: seq<Stamped>): M.Logs
    decreases |q|
  {
    if q == [] then m
    else
      var m' := ApplyLog(m, q[0].entry, q[0].env.alloc);
      if LogPanics(m, q[0].entry, q[0].env.alloc) then m' else FoldLog(m', q[1..])
  }

  predicate LogGoesDown(m: M.Logs, q: seq<Stamped>)
    decreases |q|
  {
    q != [] &&
    (LogPanics(m, q[0].entry, q[0].env.alloc) || LogGoesDown(ApplyLog(m, q[0].entry, q[0].env.alloc), q[1..]))
  }

  /** What the stores come to, and which tasks will have panicked, once each task has run to its end. */
  function Final(t: Tasks): Replaying {
    Replaying(Store(FoldKv(t.store.kv, t.kv), FoldList(t.store.lists, t.list), FoldLog(t.store.logs, t.log)),
              t.down + (if ListGoesDown(t.store.lists, t.list) then {OfList} else {})
                     + (if LogGoesDown(t.store.logs, t.log) then {OfLog} else {}))
  }

  function Share(s: Replaying, es: seq<Stamped>, c: Category): seq<Stamped> {
    if c in s.down then [] else Only(es, CategoryIn, c)
  }

  /** The tasks as `load_and_apply` starts them. */
  function Split(s: Replaying, es: seq<Stamped>): Tasks {
    Tasks(s.store, Share(s, es, OfKv), Share(s, es, OfList), Share(s, es, OfLog), s.down)
  }

  lemma {:induction false} OnlyMembers(es: seq<Stamped>, c: Category)
    ensures AllOf(Only(es, CategoryIn, c), c)
    decreases |es|
  {
    hide CategoryOf;
    if es != [] {
      OnlyMembers(es[1..], c);
    }
  }

  lemma NoneOf()
    ensures forall c :: AllOf([], c)
  {
  }

  lemma SplitOk(s: Replaying, es: seq<Stamped>)
    ensures Split(s, es).Ok()
  {
    hide AllOf, Only;
    OnlyMembers(es, OfKv);
    OnlyMembers(es, OfList);
    OnlyMembers(es, OfLog);
    assert AllOf([], OfKv) && AllOf([], OfList) && AllOf([], OfLog) by {
      NoneOf();
    }
  }

  lemma AdvanceKeepsFinal(t: Tasks, c: Category)
    requires t.Ok()
    ensures Final(Advance(t, c)) == Final(t)
  {
    hide ApplyKv, ApplyList, ApplyLog, LogPanics, ListPanics;
    var q := t.Queue(c);
    if q != [] {
      assert CategoryIn(q[0]) == c;
      OwnPanics(t.store, q[0]);
    }
  }

  lemma OnlyFront(es: seq<Stamped>, c: Category)
    requires es != []
    ensures var rest := Only(es[1..], CategoryIn, c);
            Only(es, CategoryIn, c) == if CategoryIn(es[0]) == c then [es[0]] + rest else rest
  {
    assert [] + Only(es[1..], CategoryIn, c) == Only(es[1..], CategoryIn, c);
  }

  /** Splitting after the first entry was applied is letting its task advance once. */
  lemma SplitNext(s: Replaying, es: seq<Stamped>)
    requires es != []
    ensures var c := CategoryIn(es[0]);
            Split(ApplyNext(s, es[0]), es[1..]) == if c in s.down then Split(s, es) else Advance(Split(s, es), c)
  {
    hide Apply, Panics, Only, CategoryOf;
    OnlyFront(es, OfKv);
    OnlyFront(es, OfList);
    OnlyFront(es, OfLog);
    var c := CategoryIn(es[0]);
    if c !in s.down {
      var q := Split(s, es).Queue(c);
      assert q == [es[0]] + Only(es[1..], CategoryIn, c);
      assert q[0] == es[0] && q[1..] == Only(es[1..], CategoryIn, c);
    }
  }

  /** Applying the whole file in order comes to the same as running the three tasks to their ends. */
  lemma {:induction false} ApplyAllIsFinal(s: Replaying, es: seq<Stamped>)
    ensures ApplyAll(s, es) == Final(Split(s, es))
    decreases |es|
  {
    if es != [] {
      var t, c := Split(s, es), CategoryIn(es[0]);
      ApplyAllIsFinal(ApplyNext(s, es[0]), es[1..]);
      SplitNext(s, es);
      SplitOk(s, es);
      hide ApplyNext, Advance, Final, Split;
      if c !in s.down {
        AdvanceKeepsFinal(t, c);
      }
    }
  }

  lemma {:induction false} FollowKeepsFinal(t: Tasks, schedule: seq<Category>)
    requires t.Ok()
    ensures Final(Follow(t, schedule)) == Final(t)
    decreases |schedule|
  {
    if schedule != [] {
      AdvanceOk(t, schedule[0]);
      AdvanceKeepsFinal(t, schedule[0]);
      hide Advance, Final;
      FollowKeepsFinal(Advance(t, schedule[0]), schedule[1..]);
    }
  }

  /** Whatever the order in which the three tasks take turns, once all have ended the key-value, list and log stores
      are those of applying the whole file in order, and the same tasks have panicked. */
  lemma ReplayIsConfluent(s: Replaying, es: seq<Stamped>, schedule: seq<Category>)
    ensures var t := Follow(Split(s, es), schedule); t.Done() ==> Replaying(t.store, t.down) == ApplyAll(s, es)
  {
    hide Follow, Split, ApplyAll;
    ApplyAllIsFinal(s, es);
    SplitOk(s, es);
    FollowKeepsFinal(Split(s, es), schedule);
  }

  lemma {:induction false} ApplyAllLast(s: Replaying, es: seq<Stamped>, x: Stamped)
    ensures ApplyAll(s, es + [x]) == ApplyNext(ApplyAll(s, es), x)
    decreases |es|
  {
    hide ApplyNext;
    if es == [] {
      assert es + [x] == [x];
    } else {
      ApplyAllLast(ApplyNext(s, es[0]), es[1..], x);
      assert (es + [x])[1..] == es[1..] + [x];
    }
  }
}
