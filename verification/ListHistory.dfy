/** A keyed list over every run: what became of each item ever accepted. */
module ListHistory {
  import opened Bytes
  import opened ListSpec

  datatype Op =
    | OpPush(key: string, payload: bytes)
    | OpPushRange(key: string, items: seq<bytes>)
    | OpPop(key: string)
    | OpPopCount(key: string, count: nat)
    | OpPopRange(key: string, start: nat, end: nat)
    | OpLen(key: string)
    | OpFlush(key: string)

  function Step(m: Lists, op: Op): Lists {
    match op
    case OpPush(k, p) => Push(m, k, p)
    case OpPushRange(k, ps) => PushRange(m, k, ps)
    case OpPop(k) => Pop(m, k)
    case OpPopCount(k, n) => PopCount(m, k, n)
    case OpPopRange(k, start, end) => PopRange(m, k, start, end)
    case OpLen(k) => Len(m, k)
    case OpFlush(k) => Flush(m, k)
  }

  /** What an operation hands to its caller; a failed counted pop and a flush hand out nothing. */
  function HandedOut(m: Lists, op: Op): seq<bytes> {
    match op
    case OpPop(k) => if PopReply(m, k).Ok? then [PopReply(m, k).value] else []
    case OpPopCount(k, n) => if PopCountReply(m, k, n).Ok? then PopCountReply(m, k, n).value else []
    case OpPopRange(k, start, end) =>
      if Drainable(m, k, start, end) && PopRangeReply(m, k, start, end).Ok? then PopRangeReply(m, k, start, end).value else []
    case _ => []
  }

  function Run(m: Lists, ops: seq<Op>): Lists
    decreases |ops|
  {
    if ops == [] then m else Run(Step(m, ops[0]), ops[1..])
  }

  // ---- what a step changes ----

  /** What happens to the items under a key: nothing, more at the end, or those from `start` to `end` removed. */
  datatype Change = Keep | Gain(items: seq<bytes>) | Lose(start: nat, end: nat)

  function Min(a: nat, b: nat): nat {
    if a < b then a else b
  }

  function ChangeOf(m: Lists, op: Op, k: string): (c: Change)
    ensures c.Lose? ==> c.start <= c.end <= |Items(m, k)|
  {
    if op.key != k then Keep
    else match op
      case OpPush(_, p) => if Fits(p) then Gain([p]) else Keep
      case OpPushRange(_, ps) => Gain(Fitting(ps))
      case OpPop(_) => Lose(0, Min(1, |Items(m, k)|))
      case OpPopCount(_, n) => Lose(0, Min(n + 1, |Items(m, k)|))
      case OpPopRange(_, start, end) => if k in m && start <= end <= |m[k]| then Lose(start, end) else Keep
      case OpLen(_) => Keep
      case OpFlush(_) => Lose(0, |Items(m, k)|)
  }

  function Changed(items: seq<bytes>, c: Change): seq<bytes>
    requires c.Lose? ==> c.start <= c.end <= |items|
  {
    match c
    case Keep => items
    case Gain(ps) => items + ps
    case Lose(start, end) => items[..start] + items[end..]
  }

  /** A counted pop that finds too few items, and a flush, lose what they take. */
  predicate TakesSilently(m: Lists, op: Op) {
    op.OpFlush? || (op.OpPopCount? && |Items(m, op.key)| <= op.count)
  }

  lemma CutFront(items: seq<bytes>, n: nat)
    requires n <= |items|
    ensures items[..0] + items[n..] == items[n..]
  {
  }

  lemma OwnKeyChanges(m: Lists, op: Op)
    ensures Items(Step(m, op), op.key) == Changed(Items(m, op.key), ChangeOf(m, op, op.key))
  {
    hide Fitting;
    var items := Items(m, op.key);
    match op {
      case OpPush(_, _) =>
      case OpPushRange(_, ps) => assert items + [] == items;
      case OpPop(_) => CutFront(items, Min(1, |items|));
      case OpPopCount(_, n) => CutFront(items, Min(n + 1, |items|));
      case OpPopRange(_, _, _) =>
      case OpLen(_) =>
      case OpFlush(_) => CutFront(items, |items|);
    }
  }

  lemma StepChanges(m: Lists, op: Op, k: string)
    ensures Items(Step(m, op), k) == Changed(Items(m, k), ChangeOf(m, op, k))
  {
    if k == op.key {
      OwnKeyChanges(m, op);
    } else {
      hide Fitting;
    }
  }

  /** What is taken goes to the caller, unless it is taken silently; and nothing else goes to the caller. */
  lemma HandsOutWhatItTakes(m: Lists, op: Op)
    ensures var c := ChangeOf(m, op, op.key);
            HandedOut(m, op) == if c.Lose? && !TakesSilently(m, op) then Items(m, op.key)[c.start..c.end] else []
  {
    hide Fitting;
  }

  // ---- the history of one key ----

  /** The items accepted, in order; the numbers of those removed, in order of removal; and of those still there. */
  datatype History = History(accepted: seq<bytes>, taken: seq<nat>, there: seq<nat>)

  const NO_HISTORY: History := History([], [], [])

  /** `a`, `a + 1`, ... below `b`. */
  function Range(a: nat, b: nat): (r: seq<nat>)
    requires a <= b
    ensures |r| == b - a && forall i :: 0 <= i < |r| ==> r[i] == a + i
  {
    seq(b - a, i requires 0 <= i < b - a => a + i)
  }

  function Noted(h: History, c: Change): History
    requires c.Lose? ==> c.start <= c.end <= |h.there|
  {
    match c
    case Keep => h
    case Gain(ps) => History(h.accepted + ps, h.taken, h.there + Range(|h.accepted|, |h.accepted| + |ps|))
    case Lose(start, end) => History(h.accepted, h.taken + h.there[start..end], h.there[..start] + h.there[end..])
  }

  ghost predicate Known(h: History, ns: seq<nat>) {
    forall i :: 0 <= i < |ns| ==> ns[i] < |h.accepted|
  }

  function Picked(h: History, ns: seq<nat>): (r: seq<bytes>)
    requires Known(h, ns)
    ensures |r| == |ns| && forall i :: 0 <= i < |r| ==> r[i] == h.accepted[ns[i]]
  {
    seq(|ns|, i requires 0 <= i < |ns| => h.accepted[ns[i]])
  }

  ghost predicate Increasing(ns: seq<nat>) {
    forall i, j :: 0 <= i < j < |ns| ==> ns[i] < ns[j]
  }

  /** `items` are, in the order of acceptance, the accepted items still there. */
  ghost predicate Holds(h: History, items: seq<bytes>) {
    Known(h, h.there) && Picked(h, h.there) == items && Increasing(h.there)
  }

  /** Every accepted item was taken once or is still there, and not both. */
  ghost predicate Accounted(h: History) {
    multiset(h.taken) + multiset(h.there) == multiset(Range(0, |h.accepted|))
  }

  /** What was taken, followed by what is there, is what was accepted. */
  ghost predicate InOrder(h: History) {
    h.taken + h.there == Range(0, |h.accepted|)
  }

  lemma RangeSplit(a: nat, b: nat, c: nat)
    requires a <= b <= c
    ensures Range(a, c) == Range(a, b) + Range(b, c)
  {
  }

  lemma GainHolds(h: History, items: seq<bytes>, ps: seq<bytes>)
    requires Holds(h, items)
    ensures Holds(Noted(h, Gain(ps)), items + ps)
  {
    var h' := Noted(h, Gain(ps));
    assert Picked(h', h'.there) == items + ps;
  }

  lemma Cut<T>(t: seq<T>, start: nat, end: nat, i: nat)
    requires start <= end <= |t| && i < |t| - (end - start)
    ensures (t[..start] + t[end..])[i] == t[if i < start then i else i + end - start]
  {
  }

  lemma LoseHolds(h: History, items: seq<bytes>, start: nat, end: nat)
    requires Holds(h, items) && start <= end <= |items|
    ensures Holds(Noted(h, Lose(start, end)), items[..start] + items[end..])
  {
    var h', left := Noted(h, Lose(start, end)), items[..start] + items[end..];
    forall i | 0 <= i < |h'.there| ensures h'.there[i] < |h'.accepted| && h'.accepted[h'.there[i]] == left[i] {
      Cut(h.there, start, end, i);
      Cut(items, start, end, i);
    }
    forall i, j | 0 <= i < j < |h'.there| ensures h'.there[i] < h'.there[j] {
      Cut(h.there, start, end, i);
      Cut(h.there, start, end, j);
    }
    assert Picked(h', h'.there) == left;
  }

  lemma NotedAccounted(h: History, c: Change)
    requires Accounted(h) && (c.Lose? ==> c.start <= c.end <= |h.there|)
    ensures Accounted(Noted(h, c))
  {
    match c
    case Keep =>
    case Gain(ps) => RangeSplit(0, |h.accepted|, |h.accepted| + |ps|);
    case Lose(start, end) => assert h.there == h.there[..start] + h.there[start..end] + h.there[end..];
  }

  lemma Regroup(a: seq<nat>, b: seq<nat>, c: seq<nat>)
    ensures a + (b + c) == a + b + c
  {
  }

  lemma CutInTwo(t: seq<nat>, n: nat)
    requires n <= |t|
    ensures t[..n] + t[n..] == t && t[..0] + t[n..] == t[n..] && t[n..n] == [] && t[0..n] == t[..n]
  {
  }

  lemma NotedInOrder(h: History, c: Change)
    requires InOrder(h) && (c.Lose? ==> c.start <= c.end <= |h.there| && (c.start == 0 || c.start == c.end))
    ensures InOrder(Noted(h, c))
  {
    hide Range;
    var n, t := |h.accepted|, h.there;
    match c
    case Keep =>
    case Gain(ps) =>
      RangeSplit(0, n, n + |ps|);
      Regroup(h.taken, t, Range(n, n + |ps|));
    case Lose(start, end) =>
      CutInTwo(t, end);
      Regroup(h.taken, t[..end], t[end..]);
      if start == end {
        assert h.taken + [] == h.taken;
      }
  }

  // ---- every run ----

  /** No range is taken from further back than the front. */
  predicate FromFront(ops: seq<Op>) {
    forall i :: 0 <= i < |ops| && ops[i].OpPopRange? ==> ops[i].start == 0 || ops[i].start == ops[i].end
  }

  function HistoryOf(h: History, m: Lists, ops: seq<Op>, k: string): History
    requires |h.there| == |Items(m, k)|
    decreases |ops|
  {
    if ops == [] then h
    else
      StepChanges(m, ops[0], k);
      HistoryOf(Noted(h, ChangeOf(m, ops[0], k)), Step(m, ops[0]), ops[1..], k)
  }

  lemma {:induction false} RunTracked(h: History, m: Lists, ops: seq<Op>, k: string)
    requires Holds(h, Items(m, k)) && Accounted(h)
    ensures var h' := HistoryOf(h, m, ops, k); Holds(h', Items(Run(m, ops), k)) && Accounted(h')
    decreases |ops|
  {
    hide Accounted, Step, Changed, Items, ChangeOf;
    if ops != [] {
      StepChanges(m, ops[0], k);
      ChangeTracked(h, Items(m, k), ChangeOf(m, ops[0], k));
      RunTracked(Noted(h, ChangeOf(m, ops[0], k)), Step(m, ops[0]), ops[1..], k);
    }
  }

  lemma {:induction false} RunInOrder(h: History, m: Lists, ops: seq<Op>, k: string)
    requires |h.there| == |Items(m, k)| && InOrder(h) && FromFront(ops)
    ensures InOrder(HistoryOf(h, m, ops, k))
    decreases |ops|
  {
    hide InOrder, Step, Items, ChangeOf;
    if ops != [] {
      StepChanges(m, ops[0], k);
      FrontOnly(m, ops[0], k);
      NotedInOrder(h, ChangeOf(m, ops[0], k));
      RunInOrder(Noted(h, ChangeOf(m, ops[0], k)), Step(m, ops[0]), ops[1..], k);
    }
  }

  lemma FrontOnly(m: Lists, op: Op, k: string)
    requires op.OpPopRange? ==> op.start == 0 || op.start == op.end
    ensures var c := ChangeOf(m, op, k); c.Lose? ==> c.start == 0 || c.start == c.end
  {
  }

  lemma ChangeTracked(h: History, items: seq<bytes>, c: Change)
    requires Holds(h, items) && Accounted(h) && (c.Lose? ==> c.start <= c.end <= |items|)
    ensures |h.there| == |items| && Holds(Noted(h, c), Changed(items, c)) && Accounted(Noted(h, c))
  {
    hide Accounted;
    NotedAccounted(h, c);
    match c
    case Keep =>
    case Gain(ps) => GainHolds(h, items, ps);
    case Lose(start, end) => LoseHolds(h, items, start, end);
  }

  /** Over every run of every operation, and for each key: the list holds, in the order of acceptance, just the
      accepted items not yet taken, and none is taken twice. As long as ranges are taken from the front only, the
      items are taken in the order of acceptance too: what was taken, followed by what is there, is what was accepted. */
  lemma EveryRunIsQueue(ops: seq<Op>, k: string)
    ensures var h := HistoryOf(NO_HISTORY, map[], ops, k);
            && Holds(h, Items(Run(map[], ops), k)) && Accounted(h)
            && (FromFront(ops) ==> InOrder(h))
  {
    hide HistoryOf, Run, FromFront;
    RunTracked(NO_HISTORY, map[], ops, k);
    if FromFront(ops) {
      RunInOrder(NO_HISTORY, map[], ops, k);
    }
  }
}
