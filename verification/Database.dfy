/** The database as it is built: three stores, and an append-only record of what succeeded. */
module Database {
  import opened Bytes
  import opened Aof
  import opened LogSpec
  import opened Replay
  import opened DbSpec
  import opened Recovery
  import G = GroupSpec
  import K = KvSpec
  import L = ListSpec
  import M = ManagerSpec
  import Groups
  import KvStore
  import SegList

  function Lifted<T>(r: Result<T, L.ListError>): Result<T, DbError> {
    if r.Err? then Err(ListFailed(r.error)) else Ok(r.value)
  }

  /** A log operation at some clock reading, seen without the caches. */
  ghost predicate AtSomeTime(op: M.Op, plain: DbOp) {
    match op
    case Add(n, r, alloc, _) => plain == DbOp.Add(n, r, alloc)
    case AddRange(n, rs, alloc, _) => plain == DbOp.AddRange(n, rs, alloc)
    case Create(n) => plain == DbOp.Create(n)
    case Drop(n) => plain == DbOp.Drop(n)
    case Remove(n, upTo) => plain == DbOp.Trim(n, upTo)
    case _ => false
  }

  /** For the operations that write, the caches change neither the logs nor the reply. */
  lemma Uncached(hash: G.Hash, m: M.Groups, op: M.Op, plain: DbOp)
    requires AtSomeTime(op, plain)
    ensures M.Askable(op) && Target(plain) == OfLog
    ensures M.LogsOf(M.Step(hash, m, op)) == LogsAfter(M.LogsOf(m), plain)
    ensures M.ReplyTo(hash, m, op) == LogReply(M.LogsOf(m), plain)
  {
    M.StepLogs(hash, m, op);
    hide Append, LogSpec.Trim, Outcome;
  }

  /** What replaying a log entry asks of the group manager, with the clock and without it. */
  ghost function LogEntryOp(e: AofEntry, env: Env): (r: (M.Op, DbOp))
    requires CategoryOf(e) == OfLog
    ensures AtSomeTime(r.0, r.1) && forall m :: LogsAfter(m, r.1) == ApplyLog(m, e, env.alloc)
  {
    match e
    case LogCreateGroup(n) => (M.Create(n), DbOp.Create(n))
    case LogDropGroup(n) => (M.Drop(n), DbOp.Drop(n))
    case LogAdd(n, r) => (M.Add(n, r, env.alloc, env.now), DbOp.Add(n, r, env.alloc))
    case LogAddRange(n, rs) => (M.AddRange(n, rs, env.alloc, _ => env.now), DbOp.AddRange(n, rs, env.alloc))
    case LogRemove(n, upTo) => (M.Remove(n, upTo), DbOp.Trim(n, upTo))
  }

  /** The reply tells whether the append panicked. */
  lemma CrashedIsPanic(m: M.Logs, e: AofEntry, env: Env)
    requires CategoryOf(e) == OfLog
    ensures LogPanics(m, e, env.alloc) <==> LogReply(m, LogEntryOp(e, env).1) == M.Refused(G.Crashed)
  {
    hide Outcome, Append;
  }

  class Database {
    const groups: Groups.GroupManager
    const kv: KvStore.KvStore
    const list: SegList.SegList
    var aof: seq<AofEntry>

    /** Everything the database's state lives in. */
    ghost function Footprint(): set<object>
      reads this, list, groups
    {
      {this, kv, list, groups} + list.home.Keys + groups.Repr
    }

    ghost predicate Valid()
      reads Footprint()
    {
      && groups.Valid() && list.Valid()
      && this !in groups.Repr && kv !in groups.Repr && list !in groups.Repr
      && forall a :: a in list.home ==> a !in groups.Repr
    }

    ghost function View(): Db
      requires Valid()
      reads Footprint()
    {
      Db(kv.dbs, list.View(), M.LogsOf(groups.View()), aof)
    }

    constructor (hash: G.Hash)
      ensures Valid() && View() == START && groups.hash == hash
      ensures fresh(kv) && fresh(list) && fresh(list.home.Keys) && fresh(groups) && fresh(groups.Repr)
    {
      hide SegList.SegList.Valid, SegList.SegList.View, Groups.GroupManager.Valid, Groups.GroupManager.View;
      var k := new KvStore.KvStore();
      var l := new SegList.SegList();
      var g := new Groups.GroupManager(hash);
      kv, list, groups, aof := k, l, g, [];
      new;
    }

    // ---- a change to one store leaves the others alone ----

    twostate lemma OnlyList()
      requires old(Valid()) && list.Valid() && fresh(list.home.Keys - old(list.home.Keys))
      requires unchanged(kv) && unchanged(groups) && unchanged(groups.Repr)
      ensures Valid() && View() == old(View()).(lists := list.View(), aof := aof)
      ensures fresh(Footprint() - old(Footprint()))
    {
      hide SegList.SegList.Valid, SegList.SegList.View, Groups.GroupManager.Valid, Groups.GroupManager.View;
    }

    twostate lemma OnlyGroups()
      requires old(Valid()) && groups.Valid() && fresh(groups.Repr - old(groups.Repr))
      requires unchanged(kv) && unchanged(list) && unchanged(list.home.Keys)
      ensures Valid() && View() == old(View()).(logs := M.LogsOf(groups.View()), aof := aof)
      ensures fresh(Footprint() - old(Footprint()))
    {
      hide SegList.SegList.Valid, SegList.SegList.View, Groups.GroupManager.Valid, Groups.GroupManager.View;
    }

    twostate lemma OnlyKv()
      requires old(Valid()) && unchanged(groups) && unchanged(groups.Repr) && unchanged(list) && unchanged(list.home.Keys)
      ensures Valid() && View() == old(View()).(kv := kv.dbs, aof := aof)
      ensures Footprint() == old(Footprint())
    {
      hide SegList.SegList.Valid, SegList.SegList.View, Groups.GroupManager.Valid, Groups.GroupManager.View;
    }

    // ---- list operations ----

    method ListPush(key: string, payload: bytes) returns (r: Result<(), DbError>)
      requires Valid()
      modifies Footprint()
      ensures Valid() && fresh(Footprint() - old(Footprint()))
      ensures View() == After(old(View()), Push(key, payload))
      ensures r == Lifted(L.PushReply(payload))
    {
      hide SegList.SegList.Valid, SegList.SegList.View, Groups.GroupManager.Valid, Groups.GroupManager.View;
      var done := list.Push(key, payload);
      OnlyList();
      if done.Err? {
        return Err(ListFailed(done.error));
      }
      aof := aof + [AofEntry.ListPush(key, payload)];
      OnlyList();
      return Ok(());
    }

    method ListPushRange(key: string, items: seq<bytes>) returns (r: Result<(), DbError>)
      requires Valid()
      modifies Footprint()
      ensures Valid() && fresh(Footprint() - old(Footprint()))
      ensures View() == After(old(View()), PushRange(key, items))
      ensures r == Lifted(L.PushRangeReply(items))
    {
      hide SegList.SegList.Valid, SegList.SegList.View, Groups.GroupManager.Valid, Groups.GroupManager.View;
      var done := list.PushRange(key, items);
      OnlyList();
      if done.Err? {
        return Err(ListFailed(done.error));
      }
      aof := aof + [AofEntry.ListPushRange(key, items)];
      OnlyList();
      return Ok(());
    }

    method ListPop(key: string) returns (r: Result<bytes, DbError>)
      requires Valid()
      modifies Footprint()
      ensures Valid() && fresh(Footprint() - old(Footprint()))
      ensures View() == After(old(View()), Pop(key))
      ensures r == Lifted(L.PopReply(old(View()).lists, key))
    {
      hide SegList.SegList.Valid, SegList.SegList.View, Groups.GroupManager.Valid, Groups.GroupManager.View;
      var done := list.Pop(key);
      OnlyList();
      if done.Err? {
        return Err(ListFailed(done.error));
      }
      aof := aof + [AofEntry.ListPop(key)];
      OnlyList();
      return Ok(done.value);
    }

    method ListPopRange(key: string, start: nat, end: nat) returns (r: Result<seq<bytes>, DbError>)
      requires Valid() && L.Drainable(View().lists, key, start, end)
      modifies Footprint()
      ensures Valid() && fresh(Footprint() - old(Footprint()))
      ensures View() == After(old(View()), PopRange(key, start, end))
      ensures r == Lifted(L.PopRangeReply(old(View()).lists, key, start, end))
    {
      hide SegList.SegList.Valid, SegList.SegList.View, Groups.GroupManager.Valid, Groups.GroupManager.View;
      var done := list.PopRange(key, start, end);
      OnlyList();
      if done.Err? {
        return Err(ListFailed(done.error));
      }
      aof := aof + [AofEntry.ListPopRange(key, start, end)];
      OnlyList();
      return Ok(done.value);
    }

    method ListPopCount(key: string, count: nat) returns (r: Result<seq<bytes>, DbError>)
      requires Valid()
      modifies Footprint()
      ensures Valid() && fresh(Footprint() - old(Footprint()))
      ensures View() == After(old(View()), PopCount(key, count))
      ensures r == Lifted(L.PopCountReply(old(View()).lists, key, count))
    {
      hide SegList.SegList.Valid, SegList.SegList.View, Groups.GroupManager.Valid, Groups.GroupManager.View;
      var done := list.PopCount(key, count);
      OnlyList();
      if done.Err? {
        return Err(ListFailed(done.error));
      }
      aof := aof + [AofEntry.ListPopCount(key, count)];
      OnlyList();
      return Ok(done.value);
    }

    method ListFlush(key: string) returns (r: Result<(), DbError>)
      requires Valid()
      modifies Footprint()
      ensures Valid() && fresh(Footprint() - old(Footprint()))
      ensures View() == After(old(View()), FlushList(key))
      ensures r == Lifted(L.FlushReply(old(View()).lists, key))
    {
      hide SegList.SegList.Valid, SegList.SegList.View, Groups.GroupManager.Valid, Groups.GroupManager.View;
      var done := list.Flush(key);
      OnlyList();
      if done.Err? {
        return Err(ListFailed(done.error));
      }
      aof := aof + [AofEntry.ListFlush(key)];
      OnlyList();
      return Ok(());
    }

    method ListLen(key: string) returns (n: nat)
      requires Valid()
      modifies Footprint()
      ensures Valid() && fresh(Footprint() - old(Footprint()))
      ensures View() == After(old(View()), Len(key)) && n == |L.Items(old(View()).lists, key)|
    {
      hide SegList.SegList.Valid, SegList.SegList.View, Groups.GroupManager.Valid, Groups.GroupManager.View;
      n := list.Len(key);
      OnlyList();
      assert aof + [] == aof;
    }

    // ---- log operations ----

    method LogCreateGroup(name: string) returns (r: M.Reply)
      requires Valid()
      modifies Footprint()
      ensures Valid() && fresh(Footprint() - old(Footprint()))
      ensures View() == After(old(View()), Create(name))
      ensures r == LogReply(old(View().logs), Create(name))
    {
      hide SegList.SegList.Valid, SegList.SegList.View, Groups.GroupManager.Valid, Groups.GroupManager.View;
      hide M.Step, M.ReplyTo, M.LogStep, LogReply, M.LogsOf;
      Uncached(groups.hash, groups.View(), M.Create(name), Create(name));
      r := groups.CreateGroup(name);
      OnlyGroups();
      if r.Refused? {
        return;
      }
      aof := aof + [AofEntry.LogCreateGroup(name)];
      OnlyGroups();
    }

    method LogDropGroup(name: string) returns (r: M.Reply)
      requires Valid()
      modifies Footprint()
      ensures Valid() && fresh(Footprint() - old(Footprint()))
      ensures View() == After(old(View()), Drop(name))
      ensures r == LogReply(old(View().logs), Drop(name))
    {
      hide SegList.SegList.Valid, SegList.SegList.View, Groups.GroupManager.Valid, Groups.GroupManager.View;
      hide M.Step, M.ReplyTo, M.LogStep, LogReply, M.LogsOf;
      Uncached(groups.hash, groups.View(), M.Drop(name), Drop(name));
      r := groups.DropGroup(name);
      OnlyGroups();
      if r.Refused? {
        return;
      }
      aof := aof + [AofEntry.LogDropGroup(name)];
      OnlyGroups();
    }

    method LogAdd(name: string, rec: Record, alloc: Allocator, now: int) returns (r: M.Reply)
      requires Valid()
      modifies Footprint()
      ensures Valid() && fresh(Footprint() - old(Footprint()))
      ensures View() == After(old(View()), DbOp.Add(name, rec, alloc))
      ensures r == LogReply(old(View().logs), DbOp.Add(name, rec, alloc))
    {
      hide SegList.SegList.Valid, SegList.SegList.View, Groups.GroupManager.Valid, Groups.GroupManager.View;
      hide M.Step, M.ReplyTo, M.LogStep, LogReply, M.LogsOf;
      Uncached(groups.hash, groups.View(), M.Add(name, rec, alloc, now), DbOp.Add(name, rec, alloc));
      r := groups.Add(name, rec, alloc, now);
      OnlyGroups();
      if r.Refused? {
        return;
      }
      aof := aof + [AofEntry.LogAdd(name, rec)];
      OnlyGroups();
    }

    method LogAddRange(name: string, recs: seq<Record>, alloc: Allocator, clock: nat -> int) returns (r: M.Reply)
      requires Valid()
      modifies Footprint()
      ensures Valid() && fresh(Footprint() - old(Footprint()))
      ensures View() == After(old(View()), DbOp.AddRange(name, recs, alloc))
      ensures r == LogReply(old(View().logs), DbOp.AddRange(name, recs, alloc))
    {
      hide SegList.SegList.Valid, SegList.SegList.View, Groups.GroupManager.Valid, Groups.GroupManager.View;
      hide M.Step, M.ReplyTo, M.LogStep, LogReply, M.LogsOf;
      Uncached(groups.hash, groups.View(), M.AddRange(name, recs, alloc, clock), DbOp.AddRange(name, recs, alloc));
      r := groups.AddRange(name, recs, alloc, clock);
      OnlyGroups();
      if r.Refused? {
        return;
      }
      aof := aof + [AofEntry.LogAddRange(name, recs)];
      OnlyGroups();
    }

    method LogRemove(name: string, upTo: nat) returns (r: M.Reply)
      requires Valid()
      modifies Footprint()
      ensures Valid() && fresh(Footprint() - old(Footprint()))
      ensures View() == After(old(View()), DbOp.Trim(name, upTo))
      ensures r == LogReply(old(View().logs), DbOp.Trim(name, upTo))
    {
      hide SegList.SegList.Valid, SegList.SegList.View, Groups.GroupManager.Valid, Groups.GroupManager.View;
      hide M.Step, M.ReplyTo, M.LogStep, LogReply, M.LogsOf;
      Uncached(groups.hash, groups.View(), M.Remove(name, upTo), DbOp.Trim(name, upTo));
      r := groups.Remove(name, upTo);
      OnlyGroups();
      if r.Refused? {
        return;
      }
      aof := aof + [AofEntry.LogRemove(name, upTo)];
      OnlyGroups();
    }

    // ---- key-value operations ----

    method KvSet(d: string, key: string, val: bytes, ttl: int, now: int, used: int, order: seq<string>)
      requires Valid()
      modifies this, kv
      ensures Valid() && Footprint() == old(Footprint())
      ensures View() == After(old(View()), SetKey(d, key, val, ttl, now, used, order))
    {
      hide SegList.SegList.Valid, SegList.SegList.View, Groups.GroupManager.Valid, Groups.GroupManager.View;
      kv.Set(d, key, val, ttl, now, used, order);
      aof := aof + [AofEntry.KvSet(d, key, val, ttl)];
      OnlyKv();
    }

    /** Counts the read, or drops the entry when it has expired; nothing is recorded. */
    method KvGet(d: string, key: string, now: int, used: int) returns (r: Option<K.DbEntry>)
      requires Valid()
      modifies this, kv
      ensures Valid() && Footprint() == old(Footprint())
      ensures View() == After(old(View()), GetKey(d, key, now, used))
      ensures r == K.GetReply(old(View()).kv, d, key, now, used)
    {
      hide SegList.SegList.Valid, SegList.SegList.View, Groups.GroupManager.Valid, Groups.GroupManager.View;
      r := kv.Get(d, key, now, used);
      OnlyKv();
      assert aof + [] == aof;
    }

    method KvDel(d: string, key: string) returns (r: Result<(), DbError>)
      requires Valid()
      modifies this, kv
      ensures Valid() && Footprint() == old(Footprint())
      ensures View() == After(old(View()), DelKey(d, key))
      ensures r == if K.DelOk(old(View()).kv, d, key) then Ok(()) else Err(KvDelError)
    {
      hide SegList.SegList.Valid, SegList.SegList.View, Groups.GroupManager.Valid, Groups.GroupManager.View;
      var ok := kv.Del(d, key);
      OnlyKv();
      if !ok {
        return Err(KvDelError);
      }
      aof := aof + [AofEntry.KvDel(d, key)];
      OnlyKv();
      return Ok(());
    }

    /** Nothing is recorded. */
    method KvFlush(d: string)
      requires Valid()
      modifies this, kv
      ensures Valid() && Footprint() == old(Footprint())
      ensures View() == After(old(View()), FlushDb(d))
    {
      hide SegList.SegList.Valid, SegList.SegList.View, Groups.GroupManager.Valid, Groups.GroupManager.View;
      kv.Flush(d);
      OnlyKv();
      assert aof + [] == aof;
    }

    // ---- replay ----

    ghost function Stores(): Store
      requires Valid()
      reads Footprint()
    {
      Store(View().kv, View().lists, View().logs)
    }

    method ApplyKvEntry(e: AofEntry, env: Env)
      requires Valid() && CategoryOf(e) == OfKv
      modifies kv
      ensures Valid() && Footprint() == old(Footprint()) && aof == old(aof)
      ensures Stores() == old(Stores()).(kv := ApplyKv(old(Stores()).kv, e, env))
    {
      hide SegList.SegList.Valid, SegList.SegList.View, Groups.GroupManager.Valid, Groups.GroupManager.View;
      match e {
        case KvSet(d, k, v, ttl) => kv.Set(d, k, v, ttl, env.now, env.used, env.order);
        case KvDel(d, k) => var _ := kv.Del(d, k);
        case KvFlush(d) => kv.Flush(d);
      }
      OnlyKv();
    }

    /** A range that runs backwards panics before anything has changed. */
    method ApplyListEntry(e: AofEntry) returns (panicked: bool)
      requires Valid() && CategoryOf(e) == OfList
      modifies list, list.home.Keys
      ensures Valid() && fresh(Footprint() - old(Footprint())) && aof == old(aof)
      ensures Stores() == old(Stores()).(lists := ApplyList(old(Stores()).lists, e))
      ensures panicked == ListPanics(old(Stores()).lists, e)
    {
      hide SegList.SegList.Valid, SegList.SegList.View, Groups.GroupManager.Valid, Groups.GroupManager.View;
      panicked := false;
      match e {
        case ListPush(k, p) => var _ := list.Push(k, p);
        case ListPushRange(k, ps) => var _ := list.PushRange(k, ps);
        case ListPop(k) => var _ := list.Pop(k);
        case ListPopRange(k, start, end) =>
          var n := list.Find(k);
          if n.Some? && end <= n.value && start > end {
            panicked := true;
          } else {
            var _ := list.PopRange(k, start, end);
          }
        case ListPopCount(k, count) => var _ := list.PopCount(k, count);
        case ListFlush(k) => var _ := list.Flush(k);
      }
      OnlyList();
    }

    method ApplyLogEntry(e: AofEntry, env: Env) returns (panicked: bool)
      requires Valid() && CategoryOf(e) == OfLog
      modifies groups, groups.Repr
      ensures Valid() && fresh(Footprint() - old(Footprint())) && aof == old(aof)
      ensures Stores() == old(Stores()).(logs := ApplyLog(old(Stores()).logs, e, env.alloc))
      ensures panicked == LogPanics(old(Stores()).logs, e, env.alloc)
    {
      hide SegList.SegList.Valid, SegList.SegList.View, Groups.GroupManager.Valid, Groups.GroupManager.View;
      hide M.Step, M.ReplyTo, M.LogStep, LogReply, M.LogsOf;
      ghost var op := LogEntryOp(e, env);
      Uncached(groups.hash, groups.View(), op.0, op.1);
      CrashedIsPanic(M.LogsOf(groups.View()), e, env);
      hide LogPanics;
      var r: M.Reply;
      match e {
        case LogCreateGroup(n) => r := groups.CreateGroup(n);
        case LogDropGroup(n) => r := groups.DropGroup(n);
        case LogAdd(n, rec) => r := groups.Add(n, rec, env.alloc, env.now);
        case LogAddRange(n, rs) => r := groups.AddRange(n, rs, env.alloc, _ => env.now);
        case LogRemove(n, upTo) => r := groups.Remove(n, upTo);
      }
      panicked := r == M.Refused(G.Crashed);
      OnlyGroups();
    }

    /** `apply_aof`: one entry is applied to the store of its category; errors are ignored and nothing is recorded. */
    method ApplyAof(x: Stamped) returns (panicked: bool)
      requires Valid()
      modifies Footprint()
      ensures Valid() && fresh(Footprint() - old(Footprint())) && aof == old(aof)
      ensures Stores() == Apply(old(Stores()), x) && panicked == Panics(old(Stores()), x)
    {
      hide Valid, View, LogPanics, ListPanics;
      OwnPanics(Stores(), x);
      match CategoryOf(x.entry)
      case OfKv =>
        ApplyKvEntry(x.entry, x.env);
        panicked := false;
      case OfList => panicked := ApplyListEntry(x.entry);
      case OfLog => panicked := ApplyLogEntry(x.entry, x.env);
    }

    /** The three replay tasks of `load_and_apply`, each taking its next entry when the schedule gives it a turn; a
        panic ends its task. */
    method ReplayTasks(kvs: seq<Stamped>, lists: seq<Stamped>, logs: seq<Stamped>, schedule: seq<Category>) returns (down: set<Category>)
      requires Valid()
      modifies Footprint()
      ensures Valid() && fresh(Footprint() - old(Footprint())) && aof == old(aof)
      ensures var t := Follow(Tasks(old(Stores()), kvs, lists, logs, {}), schedule); Stores() == t.store && down == t.down
    {
      hide Valid, View, Stores, Apply, Panics;
      var queues := map[OfKv := kvs, OfList := lists, OfLog := logs];
      down := {};
      ghost var end := Follow(Tasks(Stores(), kvs, lists, logs, {}), schedule);
      assert schedule[0..] == schedule;
      for i := 0 to |schedule|
        invariant Valid() && fresh(Footprint() - old(Footprint())) && aof == old(aof)
        invariant queues.Keys == {OfKv, OfList, OfLog}
        invariant Follow(Tasks(Stores(), queues[OfKv], queues[OfList], queues[OfLog], down), schedule[i..]) == end
      {
        assert schedule[i..][0] == schedule[i] && schedule[i..][1..] == schedule[i + 1..];
        var c := schedule[i];
        if queues[c] != [] {
          var panicked := ApplyAof(queues[c][0]);
          if panicked {
            down := down + {c};
            queues := queues[c := []];
          } else {
            queues := queues[c := queues[c][1..]];
          }
        }
      }
    }

    /** The entries already in the file come before those recorded from now on. */
    method TakeOver(file: seq<AofEntry>)
      requires Valid()
      modifies this`aof
      ensures Valid() && aof == file && Stores() == old(Stores())
    {
      hide SegList.SegList.Valid, SegList.SegList.View, Groups.GroupManager.Valid, Groups.GroupManager.View;
      aof := file;
    }

    lemma NothingStored()
      requires Valid() && View() == START
      ensures Stores() == EMPTY_STORE
    {
    }
  }

  /** Opening a database on a file: its lines are sorted by category, and the three tasks take turns as scheduled; when
      one of them panics, there is no database. When they run to their ends and no segment they need is refused, the
      lists and the logs are those of every smooth life whose record began with this file, at the point where that had
      been recorded. */
  method Open(lines: seq<Line>, hash: G.Hash, w: Weather, schedule: seq<Category>) returns (r: Option<Database>)
    ensures var t := Follow(Split(NOT_STARTED, Stamp(Entries(lines), w)), schedule);
            && (r.Some? <==> t.down == {})
            && (r.Some? ==> r.value.Valid() && r.value.aof == Entries(lines) && r.value.Stores() == t.store)
            && (Granted(Entries(lines), w) && t.Done() && r.Some? ==> Rebuilt(Entries(lines), r.value.Stores()))
    ensures r.Some? ==> fresh(r.value)
  {
    hide Database.Valid, Database.View, Database.Stores, Entries, Only, Stamp, Each, Follow, Rebuilt, Granted;
    ReplayRebuilds(Entries(lines), w, schedule);
    StampOnly(Entries(lines), OfKv, w);
    StampOnly(Entries(lines), OfList, w);
    StampOnly(Entries(lines), OfLog, w);
    var kv, list, log := LoadSeparated(lines);
    var db := new Database(hash);
    db.NothingStored();
    var down := db.ReplayTasks(Each(kv, OfKv, w), Each(list, OfList, w), Each(log, OfLog, w), schedule);
    if down != {} {
      return None;
    }
    db.TakeOver(Entries(lines));
    return Some(db);
  }
}
