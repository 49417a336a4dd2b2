/** What the LRU cache means: a sequence of items, most recently inserted or hit first. */
module LruSpec {
  import opened Bytes

  datatype Item<K, V> = Item(key: K, value: V, expiresAt: int)

  type Cache<K, V> = seq<Item<K, V>>

  /** Position of the first item with key `k`, or the length when there is none. */
  function Pos<K(==), V>(c: Cache<K, V>, k: K): (p: nat)
    ensures p <= |c|
    ensures p < |c| ==> c[p].key == k
    ensures forall i :: 0 <= i < p ==> c[i].key != k
  {
    if c == [] || c[0].key == k then 0 else 1 + Pos(c[1..], k)
  }

  predicate Has<K(==), V>(c: Cache<K, V>, k: K) {
    Pos(c, k) < |c|
  }

  function Find<K(==), V>(c: Cache<K, V>, k: K): Item<K, V>
    requires Has(c, k)
  {
    c[Pos(c, k)]
  }

  function Without<K(==), V>(c: Cache<K, V>, k: K): Cache<K, V> {
    var p := Pos(c, k);
    if p < |c| then c[..p] + c[p + 1..] else c
  }

  /** An insert into a full cache drops the last item, unless there is none to drop. */
  function Evicted<K(==), V>(c: Cache<K, V>, cap: nat): Cache<K, V> {
    if |c| == cap && c != [] then c[..|c| - 1] else c
  }

  function Insert<K(==), V>(c: Cache<K, V>, cap: nat, k: K, v: V, expiresAt: int): Cache<K, V> {
    [Item(k, v, expiresAt)] + (if Has(c, k) then Without(c, k) else Evicted(c, cap))
  }

  predicate Fresh<K(==), V>(c: Cache<K, V>, k: K, now: int) {
    Has(c, k) && !(Find(c, k).expiresAt < now)
  }

  /** A hit moves the item to the front; an expired item is dropped. */
  function AfterGet<K(==), V>(c: Cache<K, V>, k: K, now: int): Cache<K, V> {
    if Fresh(c, k, now) then [Find(c, k)] + Without(c, k) else Without(c, k)
  }

  function GetResult<K(==), V>(c: Cache<K, V>, k: K, now: int): Option<V> {
    if Fresh(c, k, now) then Some(Find(c, k).value) else None
  }

  ghost predicate DistinctKeys<K, V>(c: Cache<K, V>) {
    forall i, j :: 0 <= i < j < |c| ==> c[i].key != c[j].key
  }

  lemma PosIs<K, V>(c: Cache<K, V>, k: K, p: nat)
    requires DistinctKeys(c) && p < |c| && c[p].key == k
    ensures Pos(c, k) == p
  {
    var q := Pos(c, k);
    assert q == p || q < p;
  }

  lemma AbsentHasNoPos<K, V>(c: Cache<K, V>, k: K)
    requires forall i :: 0 <= i < |c| ==> c[i].key != k
    ensures !Has(c, k)
  {
  }

  /** A get answers `v` if and only if an item with that key and value is there whose expiry is not before `now`. */
  lemma GetIff<K, V>(c: Cache<K, V>, k: K, now: int, v: V)
    requires DistinctKeys(c)
    ensures GetResult(c, k, now) == Some(v) <==>
              exists i :: 0 <= i < |c| && c[i].key == k && c[i].value == v && now <= c[i].expiresAt
  {
    if i :| 0 <= i < |c| && c[i].key == k && c[i].value == v && now <= c[i].expiresAt {
      PosIs(c, k, i);
    }
  }

  /** What was just inserted is got back as long as it has not expired, whatever the capacity. */
  lemma GetAfterInsert<K, V>(c: Cache<K, V>, cap: nat, k: K, v: V, expiresAt: int, now: int)
    ensures GetResult(Insert(c, cap, k, v, expiresAt), k, now) == if now <= expiresAt then Some(v) else None
  {
  }

  /** The three ways an insert can go. */
  lemma InsertCases<K, V>(c: Cache<K, V>, cap: nat, k: K, v: V, e: int)
    ensures var i, p := Insert(c, cap, k, v, e), Pos(c, k);
            if p < |c| then i == [Item(k, v, e)] + (c[..p] + c[p + 1..])
            else if |c| == cap && c != [] then i == [Item(k, v, e)] + c[..|c| - 1]
            else i == [Item(k, v, e)] + c
  {
    hide Pos;
  }

  // ---- every run of the cache ----

  datatype Op<K, V> = OpInsert(key: K, value: V, expiresAt: int) | OpGet(key: K, now: int) | OpRemove(key: K)

  function Step<K(==), V>(c: Cache<K, V>, cap: nat, op: Op<K, V>): Cache<K, V> {
    match op
    case OpInsert(k, v, e) => Insert(c, cap, k, v, e)
    case OpGet(k, now) => AfterGet(c, k, now)
    case OpRemove(k) => Without(c, k)
  }

  function Run<K(==), V>(cap: nat, ops: seq<Op<K, V>>): Cache<K, V> {
    if ops == [] then [] else Step(Run(cap, ops[..|ops| - 1]), cap, ops[|ops| - 1])
  }

  /** `op`, applied to `c`, inserts `k` or hits it. */
  predicate Touches<K(==), V>(c: Cache<K, V>, op: Op<K, V>, k: K) {
    op.key == k && match op
      case OpInsert(_, _, _) => true
      case OpGet(_, now) => Fresh(c, k, now)
      case OpRemove(_) => false
  }

  /** The 1-based time of the last insert or hit of `k` in the run, 0 when there was none. */
  function LastTouch<K(==), V>(cap: nat, ops: seq<Op<K, V>>, k: K): (t: nat)
    ensures t <= |ops|
  {
    if ops == [] then 0
    else
      var before := ops[..|ops| - 1];
      if Touches(Run(cap, before), ops[|ops| - 1], k) then |ops| else LastTouch(cap, before, k)
  }

  ghost predicate RecencyOrdered<K, V>(cap: nat, ops: seq<Op<K, V>>, c: Cache<K, V>) {
    forall i, j :: 0 <= i < j < |c| ==> LastTouch(cap, ops, c[i].key) > LastTouch(cap, ops, c[j].key)
  }

  /** Where the `i`-th item of `Without(c, k)` stands in `c`. */
  function Shifted<K(==), V>(c: Cache<K, V>, k: K, i: nat): (p: nat)
    requires i < |Without(c, k)|
    ensures p < |c| && c[p] == Without(c, k)[i]
  {
    if Has(c, k) && i >= Pos(c, k) then i + 1 else i
  }

  lemma WithoutDistinct<K, V>(c: Cache<K, V>, k: K)
    requires DistinctKeys(c)
    ensures DistinctKeys(Without(c, k)) && !Has(Without(c, k), k)
    ensures |Without(c, k)| == if Has(c, k) then |c| - 1 else |c|
    ensures forall i, j :: 0 <= i < j < |Without(c, k)| ==> Shifted(c, k, i) < Shifted(c, k, j)
  {
    var w := Without(c, k);
    forall i, j | 0 <= i < j < |w| ensures w[i].key != w[j].key {
      assert Shifted(c, k, i) < Shifted(c, k, j);
    }
    forall i | 0 <= i < |w| ensures w[i].key != k {
      assert Shifted(c, k, i) != Pos(c, k);
    }
    AbsentHasNoPos(w, k);
  }

  /** Any other key is found as before. */
  lemma WithoutOthers<K, V>(c: Cache<K, V>, k: K, x: K)
    requires DistinctKeys(c) && x != k
    ensures Has(Without(c, k), x) == Has(c, x)
    ensures Has(c, x) ==> Find(Without(c, k), x) == Find(c, x)
  {
    var w, p, q := Without(c, k), Pos(c, k), Pos(c, x);
    WithoutDistinct(c, k);
    if q < |c| {
      var q' := if p < |c| && p < q then q - 1 else q;
      assert w[q'] == c[q];
      PosIs(w, x, q');
    } else {
      forall i | 0 <= i < |w| ensures w[i].key != x {
        assert c[Shifted(c, k, i)] == w[i];
      }
      AbsentHasNoPos(w, x);
    }
  }

  lemma HasInFront<K, V>(x: Item<K, V>, c: Cache<K, V>, k: K)
    ensures Has([x] + c, k) <==> x.key == k || Has(c, k)
  {
    assert ([x] + c)[1..] == c;
  }

  lemma HasWithoutLast<K, V>(c: Cache<K, V>, k: K)
    requires DistinctKeys(c) && c != []
    ensures Has(c[..|c| - 1], k) <==> Has(c, k) && c[|c| - 1].key != k
  {
    var w, p := c[..|c| - 1], Pos(c, k);
    if p < |w| {
      PosIs(w, k, p);
    } else {
      AbsentHasNoPos(w, k);
    }
  }

  /** Exactly what a step loses: a key is gone when it was removed, when a get found it expired, or when a new key was
      inserted into a full cache and it stood last. */
  lemma StepLosesIff<K, V>(c: Cache<K, V>, cap: nat, op: Op<K, V>, k: K)
    requires DistinctKeys(c) && Has(c, k)
    ensures !Has(Step(c, cap, op), k) <==>
              match op
              case OpRemove(r) => r == k
              case OpGet(g, now) => g == k && Find(c, k).expiresAt < now
              case OpInsert(n, _, _) => !Has(c, n) && |c| == cap && c[|c| - 1].key == k
  {
    hide Pos, Find;
    match op
    case OpRemove(r) =>
      WithoutDistinct(c, r);
      if r != k {
        WithoutOthers(c, r, k);
      }
    case OpGet(g, now) =>
      WithoutDistinct(c, g);
      if g != k {
        WithoutOthers(c, g, k);
      }
      if Fresh(c, g, now) {
        HasInFront(Find(c, g), Without(c, g), k);
        FindKey(c, g);
      }
    case OpInsert(n, v, e) =>
      InsertHas(c, cap, n, v, e, k);
  }

  lemma FindKey<K, V>(c: Cache<K, V>, k: K)
    requires Has(c, k)
    ensures Find(c, k).key == k
  {
  }

  lemma InsertHas<K, V>(c: Cache<K, V>, cap: nat, n: K, v: V, e: int, k: K)
    requires DistinctKeys(c) && Has(c, k)
    ensures Has(Insert(c, cap, n, v, e), k) <==> !(!Has(c, n) && |c| == cap && c[|c| - 1].key == k)
  {
    hide Pos;
    var rest := if Has(c, n) then Without(c, n) else Evicted(c, cap);
    HasInFront(Item(n, v, e), rest, k);
    if Has(c, n) {
      if k != n {
        WithoutOthers(c, n, k);
      }
    } else {
      HasWithoutLast(c, k);
    }
  }

  lemma StepDistinct<K, V>(c: Cache<K, V>, cap: nat, op: Op<K, V>)
    requires DistinctKeys(c)
    ensures DistinctKeys(Step(c, cap, op))
  {
    WithoutDistinct(c, op.key);
  }

  /** Keys stay distinct over every run. */
  lemma {:induction false} RunKeepsKeysDistinct<K, V>(cap: nat, ops: seq<Op<K, V>>)
    ensures DistinctKeys(Run(cap, ops))
  {
    if ops != [] {
      var before, op := ops[..|ops| - 1], ops[|ops| - 1];
      RunKeepsKeysDistinct(cap, before);
      StepDistinct(Run(cap, before), cap, op);
    }
  }

  /** Where the `i`-th item after a step stood before it, for an item other than the step's own. */
  function Origin<K(==), V>(c: Cache<K, V>, cap: nat, op: Op<K, V>, i: nat): (p: nat)
    requires i < |Step(c, cap, op)| && Step(c, cap, op)[i].key != op.key
    ensures p < |c| && c[p] == Step(c, cap, op)[i]
  {
    match op
    case OpInsert(k, _, _) =>
      if Has(c, k) then Shifted(c, k, i - 1) else i - 1
    case OpGet(k, now) =>
      if Fresh(c, k, now) then Shifted(c, k, i - 1) else Shifted(c, k, i)
    case OpRemove(k) => Shifted(c, k, i)
  }

  lemma TouchedIsFirst<K, V>(c: Cache<K, V>, cap: nat, op: Op<K, V>, i: nat)
    requires DistinctKeys(c) && i < |Step(c, cap, op)| && Step(c, cap, op)[i].key == op.key
    ensures i == 0 && Touches(c, op, op.key)
  {
    WithoutDistinct(c, op.key);
  }

  /** Over every run, the items stand in the order of their last insert or hit, the latest first. */
  lemma {:induction false} RunIsRecencyOrdered<K, V>(cap: nat, ops: seq<Op<K, V>>)
    ensures RecencyOrdered(cap, ops, Run(cap, ops))
  {
    if ops != [] {
      var before, op := ops[..|ops| - 1], ops[|ops| - 1];
      var c, c' := Run(cap, before), Run(cap, ops);
      RunIsRecencyOrdered(cap, before);
      RunKeepsKeysDistinct(cap, before);
      forall i, j | 0 <= i < j < |c'|
        ensures LastTouch(cap, ops, c'[i].key) > LastTouch(cap, ops, c'[j].key)
      {
        if c'[j].key == op.key {
          TouchedIsFirst(c, cap, op, j);
        }
        var q := Origin(c, cap, op, j);
        if c'[i].key == op.key {
          TouchedIsFirst(c, cap, op, i);
        } else {
          assert Origin(c, cap, op, i) < q;
        }
      }
    }
  }

  /** The value and expiry of the last insert of `k` in the run. */
  function LastInsert<K(==), V>(ops: seq<Op<K, V>>, k: K): Option<(V, int)>
    decreases |ops|
  {
    if ops == [] then None
    else
      var op := ops[|ops| - 1];
      if op.OpInsert? && op.key == k then Some((op.value, op.expiresAt)) else LastInsert(ops[..|ops| - 1], k)
  }

  /** Over every run, what is cached under a key is what was last inserted under it. */
  lemma {:induction false} RunHoldsLastInserts<K, V>(cap: nat, ops: seq<Op<K, V>>)
    ensures forall i :: 0 <= i < |Run(cap, ops)| ==>
      var x := Run(cap, ops)[i]; LastInsert(ops, x.key) == Some((x.value, x.expiresAt))
  {
    if ops != [] {
      var before, op := ops[..|ops| - 1], ops[|ops| - 1];
      var c, c' := Run(cap, before), Run(cap, ops);
      RunHoldsLastInserts(cap, before);
      RunKeepsKeysDistinct(cap, before);
      forall i | 0 <= i < |c'| ensures LastInsert(ops, c'[i].key) == Some((c'[i].value, c'[i].expiresAt)) {
        if c'[i].key == op.key {
          TouchedIsFirst(c, cap, op, i);
          assert op.OpGet? ==> c'[i] == c[Pos(c, op.key)];
        } else {
          var p := Origin(c, cap, op, i);
          assert c[p] == c'[i];
        }
      }
    }
  }

  /** An insert that evicts drops exactly one item, the one untouched for longest. */
  lemma InsertEvictsLeastRecent<K, V>(cap: nat, ops: seq<Op<K, V>>, k: K, v: V, e: int)
    requires cap >= 1 && !Has(Run(cap, ops), k) && |Run(cap, ops)| == cap
    ensures var c := Run(cap, ops); var c' := Run(cap, ops + [OpInsert(k, v, e)]);
            && c' == [Item(k, v, e)] + c[..cap - 1]
            && (forall i :: 0 <= i < cap - 1 ==>
                  LastTouch(cap, ops, c[cap - 1].key) < LastTouch(cap, ops, c[i].key))
            && !Has(c', c[cap - 1].key)
  {
    hide Pos;
    var c := Run(cap, ops);
    var ops' := ops + [OpInsert(k, v, e)];
    assert ops'[..|ops'| - 1] == ops;
    RunIsRecencyOrdered(cap, ops);
    RunKeepsKeysDistinct(cap, ops);
    AbsentHasNoPos(Run(cap, ops'), c[cap - 1].key);
  }

  lemma StepWithinCapacity<K, V>(c: Cache<K, V>, cap: nat, op: Op<K, V>)
    requires cap >= 1 && |c| <= cap
    ensures |Step(c, cap, op)| <= cap
  {
    hide Pos, Find;
  }

  lemma {:induction false} RunWithinCapacity<K, V>(cap: nat, ops: seq<Op<K, V>>)
    requires cap >= 1
    ensures |Run(cap, ops)| <= cap
  {
    hide Step;
    if ops != [] {
      RunWithinCapacity(cap, ops[..|ops| - 1]);
      StepWithinCapacity(Run(cap, ops[..|ops| - 1]), cap, ops[|ops| - 1]);
    }
  }

  /** Every run respects the capacity if and only if the capacity is positive: a cache of capacity 0 never evicts. */
  lemma CapacityRespectedIff<K(00, !new), V(00, !new)>(cap: nat)
    ensures (forall ops: seq<Op<K, V>> :: |Run(cap, ops)| <= cap) <==> cap >= 1
  {
    if cap >= 1 {
      forall ops: seq<Op<K, V>> ensures |Run(cap, ops)| <= cap {
        RunWithinCapacity(cap, ops);
      }
    } else {
      var k: K, v: V :| true;
      var ops := [OpInsert(k, v, 0)];
      assert ops[..0] == [];
      assert |Run(cap, ops)| == 1;
    }
  }
}
