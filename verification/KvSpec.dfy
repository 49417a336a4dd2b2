/** What the key-value store means, and what its sampled eviction guarantees. */
module KvSpec {
  import opened Bytes

  const MAX_ENTRIES: nat := 1024

  datatype DbEntry = DbEntry(val: bytes, ttl: int, usedCount: nat, lastUsed: int)

  type Db = map<string, DbEntry>

  type Kv = map<string, Db>

  function DbOf(kv: Kv, d: string): Db {
    if d in kv then kv[d] else map[]
  }

  function SampleSize(n: nat): nat {
    var m := if n / 5 < 16 then 16 else n / 5;
    if m < n then m else n
  }

  function VictimCount(sample: nat): nat {
    if sample / 4 < 1 then 1 else sample / 4
  }

  /** An order in which the hash map may iterate over its keys. */
  ghost predicate IsOrder(db: Db, order: seq<string>) {
    NoDup(order) && (forall k :: k in order ==> k in db) && |order| == |db|
  }

  /** The first `n`, or all when there are fewer. */
  function Taken(s: seq<string>, n: nat): seq<string> {
    if n <= |s| then s[..n] else s
  }

  function Sample(db: Db, order: seq<string>): seq<string> {
    Taken(order, SampleSize(|db|))
  }

  function Rank(db: Db, k: string): (nat, int) {
    if k in db then (db[k].usedCount, db[k].lastUsed) else (0, 0)
  }

  /** Lexicographic order on use count and time of last use. */
  predicate Below(a: (nat, int), b: (nat, int)) {
    a.0 < b.0 || (a.0 == b.0 && a.1 < b.1)
  }

  function InsertByRank(db: Db, k: string, s: seq<string>): seq<string> {
    if s == [] || !Below(Rank(db, s[0]), Rank(db, k)) then [k] + s else [s[0]] + InsertByRank(db, k, s[1..])
  }

  /** A stable sort, least used first. */
  function SortByRank(db: Db, s: seq<string>): seq<string> {
    if s == [] then [] else InsertByRank(db, s[0], SortByRank(db, s[1..]))
  }

  function Victims(db: Db, sample: seq<string>): seq<string> {
    Taken(SortByRank(db, sample), VictimCount(SampleSize(|db|)))
  }

  function Without(db: Db, keys: seq<string>): Db
    decreases |keys|
  {
    if keys == [] then db else Without(db - {keys[0]}, keys[1..])
  }

  function Evicted(db: Db, order: seq<string>): Db {
    if |db| == 0 then db else Without(db, Victims(db, Sample(db, order)))
  }

  /** `now` is read for the expiry, `used` for the time of use; `order` matters when the database is full. */
  function Set(kv: Kv, d: string, k: string, v: bytes, ttl: int, now: int, used: int, order: seq<string>): Kv {
    var db := DbOf(kv, d);
    var roomy := if |db| >= MAX_ENTRIES then Evicted(db, order) else db;
    kv[d := roomy[k := DbEntry(v, if ttl == 0 then 0 else now + ttl, 0, used)]]
  }

  predicate Expired(e: DbEntry, now: int) {
    e.ttl != 0 && e.ttl < now
  }

  function AfterGet(kv: Kv, d: string, k: string, now: int, used: int): Kv {
    var db := DbOf(kv, d);
    kv[d := if k !in db then db
            else if Expired(db[k], now) then db - {k}
            else db[k := db[k].(usedCount := db[k].usedCount + 1, lastUsed := used)]]
  }

  function GetReply(kv: Kv, d: string, k: string, now: int, used: int): Option<DbEntry> {
    var db := DbOf(kv, d);
    if k !in db || Expired(db[k], now) then None
    else Some(db[k].(usedCount := db[k].usedCount + 1, lastUsed := used))
  }

  function Del(kv: Kv, d: string, k: string): Kv {
    kv[d := DbOf(kv, d) - {k}]
  }

  predicate DelOk(kv: Kv, d: string, k: string) {
    k in DbOf(kv, d)
  }

  function Flush(kv: Kv, d: string): Kv {
    kv[d := map[]]
  }

  // ---- eviction ----

  ghost predicate Ascending(db: Db, s: seq<string>) {
    forall i, j :: 0 <= i < j < |s| ==> !Below(Rank(db, s[j]), Rank(db, s[i]))
  }

  lemma {:induction false} InsertAdds(db: Db, k: string, s: seq<string>)
    ensures multiset(InsertByRank(db, k, s)) == multiset(s) + multiset{k}
    decreases |s|
  {
    if s != [] && Below(Rank(db, s[0]), Rank(db, k)) {
      InsertAdds(db, k, s[1..]);
      assert s == [s[0]] + s[1..];
    }
  }

  lemma {:induction false} InsertSorted(db: Db, k: string, s: seq<string>)
    requires Ascending(db, s)
    ensures Ascending(db, InsertByRank(db, k, s))
    decreases |s|
  {
    if s != [] && Below(Rank(db, s[0]), Rank(db, k)) {
      InsertSorted(db, k, s[1..]);
      InsertAdds(db, k, s[1..]);
      var r := InsertByRank(db, k, s[1..]);
      assert InsertByRank(db, k, s) == [s[0]] + r;
      hide InsertByRank, Rank;
      forall j | 0 <= j < |r| ensures !Below(Rank(db, r[j]), Rank(db, s[0])) {
        assert r[j] in multiset(r);
        assert r[j] == k || r[j] in s[1..];
      }
    }
  }

  lemma {:induction false} SortSorted(db: Db, s: seq<string>)
    ensures Ascending(db, SortByRank(db, s)) && multiset(SortByRank(db, s)) == multiset(s)
    decreases |s|
  {
    if s != [] {
      SortSorted(db, s[1..]);
      InsertSorted(db, s[0], SortByRank(db, s[1..]));
      InsertAdds(db, s[0], SortByRank(db, s[1..]));
      assert s == [s[0]] + s[1..];
    }
  }

  lemma {:induction false} SameMultisetNoDup(a: seq<string>, b: seq<string>)
    requires multiset(a) == multiset(b) && NoDup(b)
    ensures NoDup(a) && |a| == |b| && forall k :: k in a <==> k in b
  {
    assert |a| == |multiset(a)| && |b| == |multiset(b)|;
    forall k ensures k in a <==> k in b {
      assert k in a <==> k in multiset(a);
      assert k in b <==> k in multiset(b);
    }
    forall i, j | 0 <= i < j < |a| ensures a[i] != a[j] {
      if a[i] == a[j] {
        assert a == a[..i] + [a[i]] + a[i + 1..j] + [a[j]] + a[j + 1..];
        assert multiset(a)[a[i]] >= 2;
        OncePerKey(b, a[i]);
      }
    }
  }

  lemma {:induction false} OncePerKey(b: seq<string>, k: string)
    requires NoDup(b)
    ensures multiset(b)[k] <= 1
  {
    if b != [] {
      assert b == [b[0]] + b[1..];
      OncePerKey(b[1..], k);
      assert k == b[0] ==> k !in b[1..];
    }
  }

  lemma {:induction false} WithoutIs(db: Db, keys: seq<string>)
    requires NoDup(keys) && forall k :: k in keys ==> k in db
    ensures Without(db, keys) == map k | k in db && k !in keys :: db[k]
    ensures |Without(db, keys)| == |db| - |keys|
    decreases |keys|
  {
    if keys != [] {
      var db' := db - {keys[0]};
      assert db'.Keys == db.Keys - {keys[0]};
      forall k | k in keys[1..] ensures k in db' {
        assert k != keys[0];
      }
      WithoutIs(db', keys[1..]);
      assert forall k :: k in keys <==> k == keys[0] || k in keys[1..];
    }
  }

  /** The victims head the sorted sample. */
  lemma VictimsLeast(db: Db, sample: seq<string>)
    requires NoDup(sample) && |sample| == SampleSize(|db|) && |db| > 0
    ensures var v := Victims(db, sample);
            && NoDup(v) && |v| == VictimCount(|sample|) && (forall k :: k in v ==> k in sample)
            && (forall k, x :: k in v && x in sample && x !in v ==> !Below(Rank(db, x), Rank(db, k)))
  {
    var s, n := SortByRank(db, sample), VictimCount(|sample|);
    SortSorted(db, sample);
    SameMultisetNoDup(s, sample);
    hide SortByRank;
    var v := Victims(db, sample);
    assert v == s[..n];
    forall i | 0 <= i < |v| ensures v[i] in sample {
      assert v[i] == s[i];
    }
    forall k, x | k in v && x in sample && x !in v ensures !Below(Rank(db, x), Rank(db, k)) {
      var i :| 0 <= i < n && v[i] == k;
      var j :| 0 <= j < |s| && s[j] == x;
      assert j >= n;
    }
  }

  /** Eviction looks at the first min(n, max(16, n / 5)) keys of whatever iteration order, and removes exactly
      max(1, sample / 4) of them and nothing else; none of the sampled keys that stay is used less than one that goes. */
  lemma EvictionGuarantee(db: Db, order: seq<string>)
    requires |db| > 0 && IsOrder(db, order)
    ensures var n, sample := |db|, Sample(db, order); var v := Victims(db, sample);
            && sample <= order && |sample| == (if n < 16 then n else if n / 5 < 16 then 16 else n / 5)
            && NoDup(v) && |v| == (if |sample| < 4 then 1 else |sample| / 4) && (forall k :: k in v ==> k in sample)
            && Evicted(db, order) == (map k | k in db && k !in v :: db[k])
            && |Evicted(db, order)| == n - |v|
            && (forall k, x :: k in v && x in sample && x !in v ==>
                  (k in db && x in db && (db[k].usedCount < db[x].usedCount ||
                    (db[k].usedCount == db[x].usedCount && db[k].lastUsed <= db[x].lastUsed))))
  {
    var sample := Sample(db, order);
    assert forall i :: 0 <= i < |sample| ==> sample[i] == order[i] && sample[i] in order;
    VictimsLeast(db, sample);
    hide Victims, Sample;
    WithoutIs(db, Victims(db, sample));
    hide Without;
    forall k, x | k in Victims(db, sample) && x in sample && x !in Victims(db, sample)
      ensures k in db && x in db && (db[k].usedCount < db[x].usedCount ||
        (db[k].usedCount == db[x].usedCount && db[k].lastUsed <= db[x].lastUsed)) {
      assert !Below(Rank(db, x), Rank(db, k));
    }
  }

  /** A full database: 204 keys are looked at and 51 of them go. */
  lemma FullEviction(db: Db, order: seq<string>)
    requires |db| == 1024 && IsOrder(db, order)
    ensures |Sample(db, order)| == 204 && |Victims(db, Sample(db, order))| == 51 && |Evicted(db, order)| == 973
  {
    EvictionGuarantee(db, order);
  }

  /** A set leaves the key with its new value and the database within bounds; of the other entries exactly the
      victims go, and only from a full database. */
  lemma SetGuarantee(kv: Kv, d: string, k: string, v: bytes, ttl: int, now: int, used: int, order: seq<string>)
    requires |DbOf(kv, d)| <= 1024 && (|DbOf(kv, d)| == 1024 ==> IsOrder(DbOf(kv, d), order))
    ensures var db := DbOf(Set(kv, d, k, v, ttl, now, used, order), d);
            && k in db && db[k].val == v && |db| <= 1024
            && (forall x :: x in db && x != k ==> x in DbOf(kv, d) && db[x] == DbOf(kv, d)[x])
            && (forall x :: x in DbOf(kv, d) && x != k ==> (x !in db <==>
                  |DbOf(kv, d)| == 1024 && x in Victims(DbOf(kv, d), Sample(DbOf(kv, d), order))))
  {
    var db := DbOf(kv, d);
    if |db| == 1024 {
      EvictionGuarantee(db, order);
    }
  }

  /** A value just set is read back until, and only until, its lifetime is over; a lifetime of 0, or one that would
      end at instant 0, never is. */
  lemma GetAfterSetIff(kv: Kv, d: string, k: string, v: bytes, ttl: int, now: int, used: int, order: seq<string>, later: int, usedThen: int)
    ensures var kv' := Set(kv, d, k, v, ttl, now, used, order);
            GetReply(kv', d, k, later, usedThen) ==
              if ttl == 0 || now + ttl == 0 || later <= now + ttl
              then Some(DbEntry(v, if ttl == 0 then 0 else now + ttl, 1, usedThen)) else None
  {
    hide Evicted;
  }

  /** A hit hands out the entry with its use counted, and that is how it is kept; nothing else changes. */
  lemma GetCounts(kv: Kv, d: string, k: string, now: int, used: int)
    ensures var db, db' := DbOf(kv, d), DbOf(AfterGet(kv, d, k, now, used), d);
            && (k in db && !(db[k].ttl != 0 && db[k].ttl < now) ==>
                  && k in db' && db'[k] == DbEntry(db[k].val, db[k].ttl, db[k].usedCount + 1, used)
                  && GetReply(kv, d, k, now, used) == Some(db'[k]))
            && (k in db && db[k].ttl != 0 && db[k].ttl < now ==> k !in db' && GetReply(kv, d, k, now, used) == None)
            && (k !in db ==> k !in db' && GetReply(kv, d, k, now, used) == None)
  {
  }

  /** A get, a delete and a flush leave the other keys alone, or all of them gone; and no operation touches another
      database. A delete fails if and only if the key is not there. */
  lemma OthersKept(kv: Kv, d: string, k: string, now: int, used: int, x: string)
    requires x != k
    ensures var db, a := DbOf(kv, d), DbOf(AfterGet(kv, d, k, now, used), d);
            (x in a <==> x in db) && (x in db ==> a[x] == db[x])
    ensures var db, a := DbOf(kv, d), DbOf(Del(kv, d, k), d);
            (x in a <==> x in db) && (x in db ==> a[x] == db[x]) && (DelOk(kv, d, k) <==> k in db)
    ensures DbOf(Flush(kv, d), d) == map[]
  {
  }

  lemma OtherDbsKept(kv: Kv, op: Op, d: string)
    requires d != op.db
    ensures DbOf(Step(kv, op), d) == DbOf(kv, d)
  {
    OneDb(kv, op);
    hide Step;
  }

  /** After a delete, a flush, or a read that finds it expired, a key is gone. */
  lemma GoneAfter(kv: Kv, d: string, k: string, now: int, used: int, later: int, usedThen: int)
    ensures GetReply(Del(kv, d, k), d, k, later, usedThen) == None
    ensures GetReply(Flush(kv, d), d, k, later, usedThen) == None
    ensures GetReply(kv, d, k, now, used).None? ==> GetReply(AfterGet(kv, d, k, now, used), d, k, later, usedThen).None?
  {
    var db := DbOf(kv, d);
    assert k !in db ==> DbOf(AfterGet(kv, d, k, now, used), d) == db;
  }

  // ---- every run ----

  datatype Op =
    | OpSet(db: string, key: string, val: bytes, ttl: int, now: int, used: int, order: seq<string>)
    | OpGet(db: string, key: string, now: int, used: int)
    | OpDel(db: string, key: string)
    | OpFlush(db: string)

  function Step(kv: Kv, op: Op): Kv {
    match op
    case OpSet(d, k, v, ttl, now, used, order) => Set(kv, d, k, v, ttl, now, used, order)
    case OpGet(d, k, now, used) => AfterGet(kv, d, k, now, used)
    case OpDel(d, k) => Del(kv, d, k)
    case OpFlush(d) => Flush(kv, d)
  }

  /** Each eviction met along the run iterates over the keys present at that time, in any order. */
  ghost predicate Feasible(kv: Kv, ops: seq<Op>)
    decreases |ops|
  {
    ops == [] ||
    ((ops[0].OpSet? && |DbOf(kv, ops[0].db)| >= 1024 ==> IsOrder(DbOf(kv, ops[0].db), ops[0].order))
     && Feasible(Step(kv, ops[0]), ops[1..]))
  }

  function Run(kv: Kv, ops: seq<Op>): Kv
    decreases |ops|
  {
    if ops == [] then kv else Run(Step(kv, ops[0]), ops[1..])
  }

  ghost predicate Bounded(kv: Kv) {
    forall d :: d in kv ==> |kv[d]| <= 1024
  }

  lemma OneDb(kv: Kv, op: Op)
    ensures op.db in Step(kv, op) && Step(kv, op) == kv[op.db := Step(kv, op)[op.db]]
  {
    hide Evicted, Expired, DbOf;
  }

  lemma DbBounded(kv: Kv, op: Op)
    requires |DbOf(kv, op.db)| <= 1024 && op.db in Step(kv, op)
    requires op.OpSet? && |DbOf(kv, op.db)| >= 1024 ==> IsOrder(DbOf(kv, op.db), op.order)
    ensures |Step(kv, op)[op.db]| <= 1024
  {
    hide Evicted, IsOrder;
    var db := DbOf(kv, op.db);
    match op
    case OpSet(d, k, v, ttl, now, used, order) => SetGuarantee(kv, d, k, v, ttl, now, used, order);
    case OpGet(_, k, _, _) => assert (db - {k}).Keys == db.Keys - {k};
    case OpDel(_, k) => assert (db - {k}).Keys == db.Keys - {k};
    case OpFlush(_) =>
  }

  lemma StepBounded(kv: Kv, op: Op)
    requires Bounded(kv) && (op.OpSet? && |DbOf(kv, op.db)| >= 1024 ==> IsOrder(DbOf(kv, op.db), op.order))
    ensures Bounded(Step(kv, op))
  {
    hide IsOrder, Step;
    OneDb(kv, op);
    DbBounded(kv, op);
  }

  /** No database ever holds more than 1024 entries, over every run and every iteration order. */
  lemma {:induction false} RunBounded(kv: Kv, ops: seq<Op>)
    requires Bounded(kv) && Feasible(kv, ops)
    ensures Bounded(Run(kv, ops))
    decreases |ops|
  {
    if ops != [] {
      StepBounded(kv, ops[0]);
      RunBounded(Step(kv, ops[0]), ops[1..]);
    }
  }
}
