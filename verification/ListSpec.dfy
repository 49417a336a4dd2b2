/** What the segmented lists mean: for each key, a first-in first-out sequence of payloads. */
module ListSpec {
  import opened Bytes

  const SEGMENT_SIZE: nat := 65536
  const HEADER_SIZE: nat := 20

  datatype ListError = EntryTooLarge | KeyNotFound | OutOfRange

  type Lists = map<string, seq<bytes>>

  function Items(m: Lists, k: string): seq<bytes> {
    if k in m then m[k] else []
  }

  predicate Fits(p: bytes) {
    HEADER_SIZE + |p| <= SEGMENT_SIZE
  }

  function Push(m: Lists, k: string, p: bytes): Lists {
    if Fits(p) then m[k := Items(m, k) + [p]] else m
  }

  function PushReply(p: bytes): Result<(), ListError> {
    if Fits(p) then Ok(()) else Err(EntryTooLarge)
  }

  /** The items before the first that does not fit. */
  function Fitting(ps: seq<bytes>): (r: seq<bytes>)
    ensures r <= ps
    ensures r == ps <==> forall i :: 0 <= i < |ps| ==> Fits(ps[i])
    ensures forall i :: 0 <= i < |r| ==> Fits(r[i])
  {
    if ps != [] && Fits(ps[0]) then [ps[0]] + Fitting(ps[1..]) else []
  }

  /** Pushes in turn and stops at the first item that does not fit, keeping the earlier ones. */
  function PushRange(m: Lists, k: string, ps: seq<bytes>): Lists {
    if Fitting(ps) == [] then m else m[k := Items(m, k) + Fitting(ps)]
  }

  function PushRangeReply(ps: seq<bytes>): Result<(), ListError> {
    if Fitting(ps) == ps then Ok(()) else Err(EntryTooLarge)
  }

  /** One round of the loop in `push_range`. */
  lemma PushRangeStep(m: Lists, k: string, ps: seq<bytes>)
    requires ps != []
    ensures Fits(ps[0]) ==> PushRange(m, k, ps) == PushRange(Push(m, k, ps[0]), k, ps[1..])
    ensures Fits(ps[0]) ==> PushRangeReply(ps) == PushRangeReply(ps[1..])
    ensures !Fits(ps[0]) ==> PushRange(m, k, ps) == m == Push(m, k, ps[0]) && PushRangeReply(ps) == Err(EntryTooLarge)
  {
    if Fits(ps[0]) {
      var rest := Fitting(ps[1..]);
      assert Fitting(ps) == [ps[0]] + rest;
      assert Items(m, k) + ([ps[0]] + rest) == Items(m, k) + [ps[0]] + rest;
      assert m[k := Items(m, k) + [ps[0]]][k := Items(m, k) + [ps[0]] + rest] == m[k := Items(m, k) + [ps[0]] + rest];
      assert rest == [] ==> Items(m, k) + [ps[0]] + rest == Items(m, k) + [ps[0]];
      assert ps == [ps[0]] + ps[1..];
    }
  }

  function Pop(m: Lists, k: string): Lists {
    if Items(m, k) == [] then m else m[k := m[k][1..]]
  }

  function PopReply(m: Lists, k: string): Result<bytes, ListError> {
    if Items(m, k) == [] then Err(KeyNotFound) else Ok(m[k][0])
  }

  /** Removes `count + 1` items, or all of them when there are fewer. */
  function PopCount(m: Lists, k: string, count: nat): Lists {
    if Items(m, k) == [] then m
    else if count < |m[k]| then m[k := m[k][count + 1..]]
    else m[k := []]
  }

  /** The items removed, or an error when there were fewer than `count + 1`: those removed are then lost. */
  function PopCountReply(m: Lists, k: string, count: nat): Result<seq<bytes>, ListError> {
    if count < |Items(m, k)| then Ok(m[k][..count + 1]) else Err(KeyNotFound)
  }

  /** `drain` panics when a range that ends in bounds runs backwards, and nothing has changed by then. */
  predicate Drainable(m: Lists, k: string, start: nat, end: nat) {
    k in m && end <= |m[k]| ==> start <= end
  }

  function PopRange(m: Lists, k: string, start: nat, end: nat): Lists {
    if k in m && start <= end <= |m[k]| then m[k := m[k][..start] + m[k][end..]] else m
  }

  function PopRangeReply(m: Lists, k: string, start: nat, end: nat): Result<seq<bytes>, ListError>
    requires Drainable(m, k, start, end)
  {
    if k !in m then Err(KeyNotFound)
    else if end > |m[k]| then Err(OutOfRange)
    else Ok(m[k][start..end])
  }

  /** Asking for a length creates the key. */
  function Len(m: Lists, k: string): Lists {
    m[k := Items(m, k)]
  }

  function Flush(m: Lists, k: string): Lists {
    if k in m then m[k := []] else m
  }

  function FlushReply(m: Lists, k: string): Result<(), ListError> {
    if k in m then Ok(()) else Err(KeyNotFound)
  }

  // ---- what each operation answers ----

  /** A push is refused if and only if the payload and its 20 bytes of header do not fit 65536 bytes; a range push if
      and only if some item is. */
  lemma PushRefusedIff(p: bytes, ps: seq<bytes>)
    ensures PushReply(p) == (if |p| <= 65516 then Ok(()) else Err(EntryTooLarge))
    ensures PushRangeReply(ps) == Ok(()) <==> forall i :: 0 <= i < |ps| ==> |ps[i]| <= 65516
    ensures PushRangeReply(ps) != Ok(()) ==> PushRangeReply(ps) == Err(EntryTooLarge)
  {
    assert forall i :: 0 <= i < |ps| ==> (Fits(ps[i]) <==> |ps[i]| <= 65516);
  }

  /** A pop fails if and only if there is no item; a range pop if and only if the key is missing, or else the end is
      past the last item; a flush if and only if the key is missing. */
  lemma TakeRefusedIff(m: Lists, k: string, start: nat, end: nat)
    requires Drainable(m, k, start, end)
    ensures PopReply(m, k) == Err(KeyNotFound) <==> k !in m || m[k] == []
    ensures PopReply(m, k).Ok? ==> Items(m, k) == [PopReply(m, k).value] + Items(Pop(m, k), k)
    ensures PopRangeReply(m, k, start, end) == Err(KeyNotFound) <==> k !in m
    ensures PopRangeReply(m, k, start, end) == Err(OutOfRange) <==> k in m && end > |m[k]|
    ensures PopRangeReply(m, k, start, end).Ok? <==> k in m && end <= |m[k]|
    ensures FlushReply(m, k) == (if k in m then Ok(()) else Err(KeyNotFound))
  {
  }

  /** What a range pop hands out stood at the positions from `start` to below `end`, and what was ahead of it and
      behind it stays in its place. */
  lemma RangeTaken(m: Lists, k: string, start: nat, end: nat)
    requires Drainable(m, k, start, end) && PopRangeReply(m, k, start, end).Ok?
    ensures var taken, left := PopRangeReply(m, k, start, end).value, Items(PopRange(m, k, start, end), k);
            && |taken| == end - start && start <= |left|
            && Items(m, k) == left[..start] + taken + left[start..]
  {
    assert m[k][..start] + m[k][start..end] + m[k][end..] == m[k];
  }

  /** First in, first out: whatever is pushed after `p`, popping the items ahead of `p` and then one more gives `p`. */
  lemma {:induction false} FirstInFirstOut(m: Lists, k: string, p: bytes, later: seq<bytes>)
    requires Fits(p)
    ensures var ahead := |Items(m, k)|; var m' := PushRange(Push(m, k, p), k, later);
            PopReply(PopMany(m', k, ahead), k) == Ok(p)
  {
    var ahead := |Items(m, k)|;
    var m' := PushRange(Push(m, k, p), k, later);
    PopManyIs(m', k, ahead);
    assert Items(m', k)[ahead] == p;
  }

  function PopMany(m: Lists, k: string, n: nat): Lists {
    if n == 0 then m else PopMany(Pop(m, k), k, n - 1)
  }

  lemma {:induction false} PopManyIs(m: Lists, k: string, n: nat)
    requires n <= |Items(m, k)|
    ensures Items(PopMany(m, k, n), k) == Items(m, k)[n..]
    decreases n
  {
    if n > 0 {
      PopManyIs(Pop(m, k), k, n - 1);
    }
  }

  /** `pop_count(n)` is `n + 1` pops, stopping at the first that fails. */
  lemma {:induction false} PopCountIsPops(m: Lists, k: string, count: nat)
    ensures PopCount(m, k, count) == PopMany(m, k, count + 1)
    ensures PopCountReply(m, k, count).Ok? ==> |PopCountReply(m, k, count).value| == count + 1
    decreases count
  {
    if count > 0 {
      PopCountIsPops(Pop(m, k), k, count - 1);
    } else {
      assert PopMany(m, k, 1) == PopMany(Pop(m, k), k, 0);
    }
    if Items(m, k) != [] {
      if count < |m[k]| {
        assert m[k][1..][count..] == m[k][count + 1..];
      }
    } else {
      PopManyOfNone(m, k, count + 1);
    }
  }

  /** How many items a counted pop removes, and how many of them it hands to its caller. */
  function Removed(m: Lists, k: string, count: nat): int {
    |Items(m, k)| - |Items(PopCount(m, k, count), k)|
  }

  function Returned(m: Lists, k: string, count: nat): int {
    if PopCountReply(m, k, count).Ok? then |PopCountReply(m, k, count).value| else 0
  }

  /** A counted pop removes as many items as its argument says if and only if there are no more than that. */
  lemma PopCountAsAskedIff(m: Lists, k: string, count: nat)
    ensures PopCount(m, k, count) == PopMany(m, k, count) <==> |Items(m, k)| <= count
  {
    PopCountIsPops(m, k, count);
    if |Items(m, k)| <= count {
      PopManyIs(m, k, |Items(m, k)|);
      PopManySplit(m, k, |Items(m, k)|, count);
      PopManySplit(m, k, |Items(m, k)|, count + 1);
      PopManyOfNone(PopMany(m, k, |Items(m, k)|), k, count - |Items(m, k)|);
      PopManyOfNone(PopMany(m, k, |Items(m, k)|), k, count + 1 - |Items(m, k)|);
    } else {
      PopManyIs(m, k, count);
      PopManyIs(m, k, count + 1);
    }
  }

  /** It hands out what it removes if and only if there are none, or more than its argument says; otherwise all the
      items are gone and only an error comes back. */
  lemma PopCountKeepsIff(m: Lists, k: string, count: nat)
    ensures Returned(m, k, count) == Removed(m, k, count) <==> !(0 < |Items(m, k)| <= count)
    ensures 0 < |Items(m, k)| <= count ==>
      Items(PopCount(m, k, count), k) == [] && PopCountReply(m, k, count) == Err(KeyNotFound)
  {
  }

  /** One item, asked for with a count of one, is lost; one of two, asked for with a count of zero, is not. */
  lemma PopCountLosesOne(k: string, p: bytes, q: bytes)
    ensures PopCountReply(map[k := [p]], k, 1) == Err(KeyNotFound) && PopCount(map[k := [p]], k, 1) == map[k := []]
    ensures PopCountReply(map[k := [p, q]], k, 0) == Ok([p]) && PopCount(map[k := [p, q]], k, 0) == map[k := [q]]
  {
    assert [p, q][..1] == [p] && [p, q][1..] == [q];
  }

  lemma {:induction false} PopManySplit(m: Lists, k: string, a: nat, n: nat)
    requires a <= n
    ensures PopMany(m, k, n) == PopMany(PopMany(m, k, a), k, n - a)
    decreases a
  {
    if a > 0 {
      PopManySplit(Pop(m, k), k, a - 1, n - 1);
    }
  }

  lemma {:induction false} PopManyOfNone(m: Lists, k: string, n: nat)
    requires Items(m, k) == []
    ensures PopMany(m, k, n) == m
  {
    if n > 0 {
      PopManyOfNone(m, k, n - 1);
    }
  }
}
