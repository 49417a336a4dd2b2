/** What the database's operations do to its three stores, and what they record. */
module DbSpec {
  import opened Bytes
  import opened Aof
  import opened LogSpec
  import G = GroupSpec
  import K = KvSpec
  import L = ListSpec
  import M = ManagerSpec

  /** An operation, with what it meets outside: the allocator, the clock, the iteration order of a hash map. */
  datatype DbOp =
    | SetKey(db: string, key: string, val: bytes, ttl: int, now: int, used: int, order: seq<string>)
    | GetKey(db: string, key: string, now: int, used: int)
    | DelKey(db: string, key: string)
    | FlushDb(db: string)
    | Create(name: string)
    | Drop(name: string)
    | Add(name: string, record: Record, alloc: Allocator)
    | AddRange(name: string, records: seq<Record>, alloc: Allocator)
    | Trim(name: string, upTo: nat)
    | Push(key: string, payload: bytes)
    | PushRange(key: string, items: seq<bytes>)
    | Pop(key: string)
    | PopRange(key: string, start: nat, end: nat)
    | PopCount(key: string, count: nat)
    | Len(key: string)
    | FlushList(key: string)

  /** The stores, the caches in front of the logs left out, and the entries recorded so far. */
  datatype Db = Db(kv: K.Kv, lists: L.Lists, logs: M.Logs, aof: seq<AofEntry>)

  const START: Db := Db(map[], map[], map[], [])

  datatype DbError = KvDelError | ListFailed(list: L.ListError) | LogFailed(log: G.GroupError) | ListPanicked

  /** The store an operation works on. */
  function Target(op: DbOp): Category {
    match op
    case SetKey(_, _, _, _, _, _, _) | GetKey(_, _, _, _) | DelKey(_, _) | FlushDb(_) => OfKv
    case Create(_) | Drop(_) | Add(_, _, _) | AddRange(_, _, _) | Trim(_, _) => OfLog
    case _ => OfList
  }

  function KvAfter(kv: K.Kv, op: DbOp): K.Kv {
    match op
    case SetKey(d, k, v, ttl, now, used, order) => K.Set(kv, d, k, v, ttl, now, used, order)
    case GetKey(d, k, now, used) => K.AfterGet(kv, d, k, now, used)
    case DelKey(d, k) => K.Del(kv, d, k)
    case FlushDb(d) => K.Flush(kv, d)
    case _ => kv
  }

  /** A log operation as the group manager takes it; without caches the clock does not matter. */
  function LogOp(op: DbOp): (r: M.Op)
    requires Target(op) == OfLog
    ensures M.Askable(r)
  {
    match op
    case Create(n) => M.Create(n)
    case Drop(n) => M.Drop(n)
    case Add(n, r, alloc) => M.Add(n, r, alloc, 0)
    case AddRange(n, rs, alloc) => M.AddRange(n, rs, alloc, _ => 0)
    case Trim(n, upTo) => M.Remove(n, upTo)
  }

  function LogsAfter(m: M.Logs, op: DbOp): M.Logs {
    if Target(op) == OfLog then M.LogStep(m, LogOp(op)) else m
  }

  function ListsAfter(m: L.Lists, op: DbOp): L.Lists {
    match op
    case Push(k, p) => L.Push(m, k, p)
    case PushRange(k, ps) => L.PushRange(m, k, ps)
    case Pop(k) => L.Pop(m, k)
    case PopRange(k, start, end) => L.PopRange(m, k, start, end)
    case PopCount(k, count) => L.PopCount(m, k, count)
    case Len(k) => L.Len(m, k)
    case FlushList(k) => L.Flush(m, k)
    case _ => m
  }

  function KvError(kv: K.Kv, op: DbOp): Option<DbError> {
    if op.DelKey? && !K.DelOk(kv, op.db, op.key) then Some(KvDelError) else None
  }

  function LogReply(m: M.Logs, op: DbOp): M.Reply {
    if Target(op) == OfLog then M.LogReply(m, LogOp(op)) else M.Done
  }

  function LogError(m: M.Logs, op: DbOp): Option<DbError> {
    var r := LogReply(m, op);
    if r.Refused? then Some(LogFailed(r.error)) else None
  }

  function ErrorOf<T>(r: Result<T, L.ListError>): Option<DbError> {
    if r.Err? then Some(ListFailed(r.error)) else None
  }

  function ListError(m: L.Lists, op: DbOp): Option<DbError> {
    match op
    case Push(_, p) => ErrorOf(L.PushReply(p))
    case PushRange(_, ps) => ErrorOf(L.PushRangeReply(ps))
    case Pop(k) => ErrorOf(L.PopReply(m, k))
    case PopRange(k, start, end) =>
      if L.Drainable(m, k, start, end) then ErrorOf(L.PopRangeReply(m, k, start, end)) else Some(ListPanicked)
    case PopCount(k, count) => ErrorOf(L.PopCountReply(m, k, count))
    case FlushList(k) => ErrorOf(L.FlushReply(m, k))
    case _ => None
  }

  /** The error an operation returns, if it fails; a panic counts as one. */
  function Error(s: Db, op: DbOp): Option<DbError> {
    match Target(op)
    case OfKv => KvError(s.kv, op)
    case OfLog => LogError(s.logs, op)
    case OfList => ListError(s.lists, op)
  }

  /** What a successful operation records; reading or flushing in a key-value database and asking for a length
      record nothing. */
  function Recorded(op: DbOp): seq<AofEntry> {
    match op
    case SetKey(d, k, v, ttl, _, _, _) => [KvSet(d, k, v, ttl)]
    case GetKey(_, _, _, _) => []
    case DelKey(d, k) => [KvDel(d, k)]
    case FlushDb(_) => []
    case Create(n) => [LogCreateGroup(n)]
    case Drop(n) => [LogDropGroup(n)]
    case Add(n, r, _) => [LogAdd(n, r)]
    case AddRange(n, rs, _) => [LogAddRange(n, rs)]
    case Trim(n, upTo) => [LogRemove(n, upTo)]
    case Push(k, p) => [ListPush(k, p)]
    case PushRange(k, ps) => [ListPushRange(k, ps)]
    case Pop(k) => [ListPop(k)]
    case PopRange(k, start, end) => [ListPopRange(k, start, end)]
    case PopCount(k, count) => [ListPopCount(k, count)]
    case Len(_) => []
    case FlushList(k) => [ListFlush(k)]
  }

  function After(s: Db, op: DbOp): Db {
    Db(KvAfter(s.kv, op), ListsAfter(s.lists, op), LogsAfter(s.logs, op),
       if Error(s, op).None? then s.aof + Recorded(op) else s.aof)
  }

  /** One operation after the other, whether or not they fail. */
  function RunOf(s: Db, ops: seq<DbOp>): Db
    decreases |ops|
  {
    if ops == [] then s else RunOf(After(s, ops[0]), ops[1..])
  }

  /** An operation works on one store; the others, and their part of the record, stay as they are. */
  lemma OneStore(s: Db, op: DbOp)
    ensures Target(op) != OfKv ==> After(s, op).kv == s.kv
    ensures Target(op) != OfList ==> After(s, op).lists == s.lists
    ensures Target(op) != OfLog ==> After(s, op).logs == s.logs
    ensures forall e :: e in Recorded(op) ==> CategoryOf(e) == Target(op)
  {
  }
}
