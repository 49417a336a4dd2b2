/** What is recorded is what was done: replaying the entries of an operation is carrying it out. */
module Recording {
  import opened Bytes
  import opened Aof
  import opened LogSpec
  import opened Replay
  import opened DbSpec
  import K = KvSpec
  import L = ListSpec
  import M = ManagerSpec
  import R = Recovery

  /** What a replay meets that meets just what the operation met. */
  function EnvOf(op: DbOp): Env {
    match op
    case SetKey(_, _, _, _, now, used, order) => Env(now, used, order, _ => true)
    case Add(_, _, alloc) => Env(0, 0, [], alloc)
    case AddRange(_, _, alloc) => Env(0, 0, [], alloc)
    case _ => R.FAIR
  }

  function StoresOf(s: Db): Store {
    Store(s.kv, s.lists, s.logs)
  }

  /** An operation that succeeds, other than reading or flushing in a key-value database or asking for a length, records
      one entry; and that entry, replayed where the operation was carried out, does to all three stores what it did. */
  lemma RecordedReplays(s: Db, op: DbOp)
    ensures var es := After(s, op).aof;
            if Error(s, op).Some? || op.GetKey? || op.FlushDb? || op.Len? then es == s.aof
            else && |es| == |s.aof| + 1 && s.aof == es[..|s.aof|]
                 && Apply(StoresOf(s), Stamped(es[|s.aof|], EnvOf(op))) == StoresOf(After(s, op))
                 && !Panics(StoresOf(s), Stamped(es[|s.aof|], EnvOf(op)))
  {
    OneEntry(op);
    if Error(s, op).None? && Recorded(op) != [] {
      EntryReplays(s, op);
    }
    hide Recorded, Error, KvAfter, ListsAfter, LogsAfter, Apply, Panics;
  }

  lemma OneEntry(op: DbOp)
    ensures |Recorded(op)| == if op.GetKey? || op.FlushDb? || op.Len? then 0 else 1
  {
  }

  lemma EntryReplays(s: Db, op: DbOp)
    requires Error(s, op).None? && |Recorded(op)| == 1
    ensures var x := Stamped(Recorded(op)[0], EnvOf(op));
            && Apply(StoresOf(s), x) == Store(KvAfter(s.kv, op), ListsAfter(s.lists, op), LogsAfter(s.logs, op))
            && !Panics(StoresOf(s), x)
  {
    hide Append, M.AppendAll, LogSpec.Trim, Outcome, M.FirstRefusal, L.PushRange, L.Drainable, K.Set, K.Del, K.Flush, K.AfterGet;
  }

  // ---- key-value databases ----

  /** A missing database counts as an empty one. */
  ghost predicate SameKv(a: K.Kv, b: K.Kv) {
    forall d :: K.DbOf(a, d) == K.DbOf(b, d)
  }

  /** The key-value entries an operation adds to the record, each with what the operation met. */
  function KvEntries(s: Db, op: DbOp): seq<Stamped> {
    if Target(op) == OfKv && Error(s, op).None? && Recorded(op) != [] then [Stamped(Recorded(op)[0], EnvOf(op))] else []
  }

  /** The operation changes a key-value database and records nothing: a read that finds its key, expired or not, or a
      flush of what is not empty. */
  predicate ChangesUnrecorded(s: Db, op: DbOp) {
    || (op.GetKey? && op.key in K.DbOf(s.kv, op.db))
    || (op.FlushDb? && K.DbOf(s.kv, op.db) != map[])
  }

  /** Replaying what an operation recorded brings its key-value databases to where it left them, if and only if it
      changed nothing unrecorded. */
  lemma KvReplaysIff(s: Db, op: DbOp)
    ensures SameKv(FoldKv(s.kv, KvEntries(s, op)), After(s, op).kv) <==> !ChangesUnrecorded(s, op)
  {
    var kv, kv' := FoldKv(s.kv, KvEntries(s, op)), After(s, op).kv;
    hide K.Set;
    if ChangesUnrecorded(s, op) {
      assert K.DbOf(kv, op.db) != K.DbOf(kv', op.db);
    }
  }

  function KvEntriesOf(s: Db, ops: seq<DbOp>): seq<Stamped>
    decreases |ops|
  {
    if ops == [] then [] else KvEntries(s, ops[0]) + KvEntriesOf(After(s, ops[0]), ops[1..])
  }

  ghost predicate AllRecorded(s: Db, ops: seq<DbOp>)
    decreases |ops|
  {
    ops == [] || (!ChangesUnrecorded(s, ops[0]) && AllRecorded(After(s, ops[0]), ops[1..]))
  }

  lemma ApplyKvSame(a: K.Kv, b: K.Kv, x: Stamped)
    requires SameKv(a, b)
    ensures SameKv(ApplyKv(a, x.entry, x.env), ApplyKv(b, x.entry, x.env))
  {
    hide K.Evicted;
    forall d ensures K.DbOf(ApplyKv(a, x.entry, x.env), d) == K.DbOf(ApplyKv(b, x.entry, x.env), d) {
      assert K.DbOf(a, d) == K.DbOf(b, d);
      if CategoryOf(x.entry) == OfKv {
        assert K.DbOf(a, x.entry.db) == K.DbOf(b, x.entry.db);
      }
    }
  }

  lemma {:induction false} FoldKvSame(a: K.Kv, b: K.Kv, q: seq<Stamped>)
    requires SameKv(a, b)
    ensures SameKv(FoldKv(a, q), FoldKv(b, q))
    decreases |q|
  {
    hide SameKv, ApplyKv;
    if q != [] {
      ApplyKvSame(a, b, q[0]);
      FoldKvSame(ApplyKv(a, q[0].entry, q[0].env), ApplyKv(b, q[0].entry, q[0].env), q[1..]);
    }
  }

  lemma {:induction false} FoldKvAppend(kv: K.Kv, a: seq<Stamped>, b: seq<Stamped>)
    ensures FoldKv(kv, a + b) == FoldKv(FoldKv(kv, a), b)
    decreases |a|
  {
    hide ApplyKv;
    if a == [] {
      assert a + b == b;
    } else {
      FoldKvAppend(ApplyKv(kv, a[0].entry, a[0].env), a[1..], b);
      assert (a + b)[1..] == a[1..] + b;
    }
  }

  lemma SameKvChain(a: K.Kv, b: K.Kv, c: K.Kv)
    requires SameKv(a, b) && SameKv(b, c)
    ensures SameKv(a, c)
  {
    forall d ensures K.DbOf(a, d) == K.DbOf(c, d) {
      assert K.DbOf(a, d) == K.DbOf(b, d) == K.DbOf(c, d);
    }
  }

  /** Over every run of operations of all kinds in which no key-value read finds its key and no flush finds anything,
      replaying the key-value entries, each with the clocks and the iteration order its operation met, rebuilds every
      key-value database, use counts, times and evictions included. */
  lemma {:induction false} KvRunReplays(s: Db, ops: seq<DbOp>)
    requires AllRecorded(s, ops)
    ensures SameKv(FoldKv(s.kv, KvEntriesOf(s, ops)), RunOf(s, ops).kv)
    decreases |ops|
  {
    hide SameKv, FoldKv, KvEntries, ChangesUnrecorded, After;
    if ops == [] {
      NothingFolded(s.kv);
    } else {
      var s', first, rest := After(s, ops[0]), KvEntries(s, ops[0]), KvEntriesOf(After(s, ops[0]), ops[1..]);
      KvReplaysIff(s, ops[0]);
      FoldKvAppend(s.kv, first, rest);
      FoldKvSame(FoldKv(s.kv, first), s'.kv, rest);
      KvRunReplays(s', ops[1..]);
      SameKvChain(FoldKv(s.kv, first + rest), FoldKv(s'.kv, rest), RunOf(s, ops).kv);
    }
  }

  lemma NothingFolded(kv: K.Kv)
    ensures FoldKv(kv, []) == kv && SameKv(kv, kv)
  {
  }

  /** A flushed key comes back: what was set, then flushed, is read after the record is replayed. */
  lemma FlushComesBack(d: string, k: string, v: bytes, now: int, w: R.Weather, later: int, used: int)
    ensures var s := After(After(START, SetKey(d, k, v, 0, now, now, [])), FlushDb(d));
            && K.GetReply(s.kv, d, k, later, used) == None
            && var back := K.GetReply(R.Replayed(s.aof, w).store.kv, d, k, later, used);
               back.Some? && back.value.val == v
  {
    var e := KvSet(d, k, v, 0);
    hide R.Replayed;
    assert After(After(START, SetKey(d, k, v, 0, now, now, [])), FlushDb(d)).aof == [] + [e] == [e];
    R.ReplayedLast([], e, w);
    assert R.Replayed([], w) == NOT_STARTED by {
      R.NothingReplayed(w);
    }
  }

  // ---- what the operations are for, as the database does them ----

  lemma KvOperations(s: Db, d: string, k: string, v: bytes, ttl: int, now: int, used: int, order: seq<string>, later: int, usedThen: int)
    ensures K.GetReply(After(s, SetKey(d, k, v, ttl, now, used, order)).kv, d, k, later, usedThen) ==
              if ttl == 0 || now + ttl == 0 || later <= now + ttl
              then Some(K.DbEntry(v, if ttl == 0 then 0 else now + ttl, 1, usedThen)) else None
    ensures K.GetReply(After(s, DelKey(d, k)).kv, d, k, later, usedThen) == None
    ensures Error(s, DelKey(d, k)).Some? <==> k !in K.DbOf(s.kv, d)
    ensures K.DbOf(After(s, FlushDb(d)).kv, d) == map[]
  {
    hide K.Evicted;
  }

  /** A flush entry, which no operation writes, still empties its database when it is replayed, and touches no other. */
  lemma FlushReplays(st: Store, d: string, env: Env, x: string)
    ensures var r := Apply(st, Stamped(KvFlush(d), env));
            && K.DbOf(r.kv, d) == map[] && (x != d ==> K.DbOf(r.kv, x) == K.DbOf(st.kv, x))
            && r.lists == st.lists && r.logs == st.logs
  {
  }

  lemma PushAndPop(s: Db, k: string, p: bytes)
    ensures L.Items(After(s, Push(k, p)).lists, k) == L.Items(s.lists, k) + (if |p| <= 65516 then [p] else [])
    ensures Error(s, Push(k, p)).Some? <==> |p| > 65516
    ensures L.Items(After(s, Pop(k)).lists, k) == (var l := L.Items(s.lists, k); if l == [] then l else l[1..])
    ensures Error(s, Pop(k)).Some? <==> L.Items(s.lists, k) == []
  {
    hide Recorded;
  }

  lemma FlushAndLen(s: Db, k: string)
    ensures L.Items(After(s, FlushList(k)).lists, k) == []
    ensures Error(s, FlushList(k)).Some? <==> k !in s.lists
    ensures L.Items(After(s, Len(k)).lists, k) == L.Items(s.lists, k)
  {
    hide Recorded;
  }
}
