/** The segmented lists as they are built: one 64 KB segment per item, taken from a pool and returned to it zeroed. */
module SegList {
  import opened Bytes
  import opened ListSpec
  import SegLog

  const POOL: nat := 16384

  datatype Home = InPool | InKey(key: string)

  /** Who owns which segment and what is in it; segments are compared, never looked into. */
  datatype Image<!A> = Image(free: seq<A>, written: map<string, seq<A>>, home: map<A, Home>, mem: map<A, bytes>)

  function Zeroed(): (s: bytes)
    ensures |s| == SEGMENT_SIZE
  {
    SegLog.Zeroed()
  }

  /** A segment holding one item: its length at offset 16, its bytes from offset 20. */
  predicate Filled(s: bytes) {
    |s| == SEGMENT_SIZE && HEADER_SIZE + FromLe(s[16..20]) <= SEGMENT_SIZE
  }

  function Payload(s: bytes): bytes
    requires Filled(s)
  {
    s[HEADER_SIZE..HEADER_SIZE + FromLe(s[16..20])]
  }

  function Fill(s: bytes, p: bytes): bytes
    requires |s| == SEGMENT_SIZE && Fits(p)
  {
    SegLog.Patched(SegLog.Patched(s, 16, ToLe(|p|, 4)), HEADER_SIZE, p)
  }

  lemma FillPayload(s: bytes, p: bytes)
    requires |s| == SEGMENT_SIZE && Fits(p)
    ensures Filled(Fill(s, p)) && Payload(Fill(s, p)) == p
  {
    Le32(|p|);
    assert Fill(s, p)[16..20] == ToLe(|p|, 4);
    assert Fill(s, p)[HEADER_SIZE..HEADER_SIZE + |p|] == p;
  }

  /** `segs` lists, without repetition, exactly the segments whose home is `h`. */
  ghost predicate Exactly<A>(segs: seq<A>, home: map<A, Home>, h: Home) {
    && NoDup(segs)
    && (forall a :: a in segs ==> a in home && home[a] == h)
    && (forall a :: a in home && home[a] == h ==> a in segs)
  }

  /** Every segment is in the pool or in one list, in one position only. */
  ghost predicate OnePlace<A>(m: Image<A>) {
    && Exactly(m.free, m.home, InPool)
    && (forall k :: k in m.written ==> Exactly(m.written[k], m.home, InKey(k)))
    && (forall a :: a in m.home && m.home[a].InKey? ==> m.home[a].key in m.written)
  }

  ghost function At<A>(m: Image<A>, k: string): seq<A> {
    if k in m.written then m.written[k] else []
  }

  lemma ExactlyFrame<A>(segs: seq<A>, home: map<A, Home>, home': map<A, Home>, h: Home)
    requires Exactly(segs, home, h)
    requires forall a :: a in home && home[a] == h ==> a in home' && home'[a] == h
    requires forall a :: a in home' && home'[a] == h ==> a in home && home[a] == h
    ensures Exactly(segs, home', h)
  {
  }

  lemma ExactlyWithoutFirst<A>(segs: seq<A>, home: map<A, Home>, h: Home, h': Home)
    requires Exactly(segs, home, h) && segs != [] && h' != h
    ensures Exactly(segs[1..], home[segs[0] := h'], h)
  {
    var rest := segs[1..];
    forall i, j | 0 <= i < j < |rest| ensures rest[i] != rest[j] {
      assert rest[i] == segs[i + 1] && rest[j] == segs[j + 1];
    }
    forall a | a in rest ensures a != segs[0] && a in segs {
      var i :| 0 <= i < |rest| && rest[i] == a;
      assert segs[i + 1] == a;
    }
    forall a | a in home && a != segs[0] && home[a] == h ensures a in rest {
      var i :| 0 <= i < |segs| && segs[i] == a;
      assert rest[i - 1] == a;
    }
  }

  lemma ExactlyWithLast<A>(segs: seq<A>, home: map<A, Home>, h: Home, a: A)
    requires Exactly(segs, home, h) && a in home && home[a] != h
    ensures Exactly(segs + [a], home[a := h], h)
  {
    var more := segs + [a];
    assert forall x :: x in more <==> x in segs || x == a;
  }

  /** Free segments are zero, written ones hold an item. */
  ghost predicate Filling<A>(m: Image<A>) {
    && m.mem.Keys == m.home.Keys
    && (forall a :: a in m.home && m.home[a] == InPool ==> m.mem[a] == Zeroed())
    && (forall a :: a in m.home && m.home[a].InKey? ==> Filled(m.mem[a]))
  }

  ghost predicate Inv<A>(m: Image<A>) {
    OnePlace(m) && Filling(m)
  }

  ghost predicate Readable<A>(m: Image<A>, segs: seq<A>) {
    forall i :: 0 <= i < |segs| ==> segs[i] in m.mem && Filled(m.mem[segs[i]])
  }

  ghost function Payloads<A>(m: Image<A>, segs: seq<A>): (r: seq<bytes>)
    requires Readable(m, segs)
    ensures |r| == |segs| && forall i :: 0 <= i < |r| ==> r[i] == Payload(m.mem[segs[i]])
  {
    seq(|segs|, i requires 0 <= i < |segs| => Payload(m.mem[segs[i]]))
  }

  lemma ListReadable<A>(m: Image<A>, k: string)
    requires Inv(m) && k in m.written
    ensures Readable(m, m.written[k])
  {
    assert Exactly(m.written[k], m.home, InKey(k));
    forall i | 0 <= i < |m.written[k]| ensures m.written[k][i] in m.mem && Filled(m.mem[m.written[k][i]]) {
      assert m.written[k][i] in m.written[k];
    }
  }

  ghost function Contents<A>(m: Image<A>): Lists
    requires Inv(m)
  {
    map k | k in m.written :: ListReadable(m, k); Payloads(m, m.written[k])
  }

  /** The first free segment, filled with `p`, goes to the end of list `k`. */
  function Pushed<A(==)>(m: Image<A>, k: string, p: bytes): Image<A>
    requires m.free != [] && m.free[0] in m.mem && |m.mem[m.free[0]]| == SEGMENT_SIZE && Fits(p)
  {
    var a := m.free[0];
    Image(m.free[1..], m.written[k := (if k in m.written then m.written[k] else []) + [a]],
          m.home[a := InKey(k)], m.mem[a := Fill(m.mem[a], p)])
  }

  /** Positions `start` to `end` of list `k` go back to the pool, zeroed. */
  function Released<A(==)>(m: Image<A>, k: string, start: nat, end: nat): Image<A>
    requires k in m.written && start <= end <= |m.written[k]|
  {
    var segs, out := m.written[k], m.written[k][start..end];
    Image(m.free + out, m.written[k := segs[..start] + segs[end..]],
          map a | a in m.home :: if a in out then InPool else m.home[a],
          map a | a in m.mem :: if a in out then Zeroed() else m.mem[a])
  }

  lemma FreeHead<A>(m: Image<A>)
    requires Inv(m) && m.free != []
    ensures m.free[0] in m.mem && m.mem[m.free[0]] == Zeroed() && m.free[0] in m.home && m.home[m.free[0]] == InPool
  {
    assert m.free[0] in m.free;
  }

  lemma AtExactly<A>(m: Image<A>, k: string)
    requires OnePlace(m)
    ensures Exactly(At(m, k), m.home, InKey(k)) && Exactly(m.free, m.home, InPool)
  {
  }

  lemma PushedPlaces<A>(m: Image<A>, k: string, p: bytes)
    requires Inv(m) && m.free != [] && Fits(p)
    ensures m.free[0] in m.mem && m.mem[m.free[0]] == Zeroed() && m.free[0] in m.home && m.home[m.free[0]] == InPool
    ensures OnePlace(Pushed(m, k, p))
  {
    hide Exactly, Filling, Fill;
    FreeHead(m);
    AtExactly(m, k);
    var a, m' := m.free[0], Pushed(m, k, p);
    ExactlyWithoutFirst(m.free, m.home, InPool, InKey(k));
    ExactlyWithLast(At(m, k), m.home, InKey(k), a);
    forall k' | k' in m.written && k' != k ensures Exactly(m.written[k'], m'.home, InKey(k')) {
      ExactlyFrame(m.written[k'], m.home, m'.home, InKey(k'));
    }
  }

  /** What a list reads as does not depend on the other segments. */
  lemma PayloadsFrame<A>(m: Image<A>, m': Image<A>, segs: seq<A>)
    requires Readable(m, segs) && forall i :: 0 <= i < |segs| ==> segs[i] in m'.mem && m'.mem[segs[i]] == m.mem[segs[i]]
    ensures Readable(m', segs) && Payloads(m', segs) == Payloads(m, segs)
  {
  }

  lemma PushedInv<A>(m: Image<A>, k: string, p: bytes)
    requires Inv(m) && m.free != [] && Fits(p)
    ensures m.free[0] in m.mem && m.mem[m.free[0]] == Zeroed()
    ensures Inv(Pushed(m, k, p))
  {
    hide OnePlace;
    PushedPlaces(m, k, p);
    FillPayload(m.mem[m.free[0]], p);
  }

  lemma NotListed<A>(m: Image<A>, k: string, a: A)
    requires OnePlace(m) && a in m.home && m.home[a] != InKey(k) && k in m.written
    ensures forall i :: 0 <= i < |m.written[k]| ==> m.written[k][i] != a
  {
    assert Exactly(m.written[k], m.home, InKey(k));
    assert forall i :: 0 <= i < |m.written[k]| ==> m.written[k][i] in m.written[k];
  }

  lemma PushedOld<A>(m: Image<A>, k: string, p: bytes, k': string)
    requires Inv(m) && m.free != [] && Fits(p) && k' in m.written
    ensures m.free[0] in m.mem && m.mem[m.free[0]] == Zeroed()
    ensures var m' := Pushed(m, k, p);
            Readable(m, m.written[k']) && Readable(m', m.written[k']) && Payloads(m', m.written[k']) == Payloads(m, m.written[k'])
  {
    hide OnePlace, Filling, Exactly, NoDup, Filled;
    PushedPlaces(m, k, p);
    ListReadable(m, k');
    NotListed(m, k', m.free[0]);
    PayloadsFrame(m, Pushed(m, k, p), m.written[k']);
  }

  lemma PushedNew<A>(m: Image<A>, k: string, p: bytes)
    requires Inv(m) && m.free != [] && Fits(p)
    ensures m.free[0] in m.mem && m.mem[m.free[0]] == Zeroed() && Inv(Pushed(m, k, p)) && Readable(m, At(m, k))
    ensures var m' := Pushed(m, k, p);
            Readable(m', m'.written[k]) && Payloads(m', m'.written[k]) == Payloads(m, At(m, k)) + [p]
  {
    hide OnePlace, Filling, Exactly, NoDup;
    PushedInv(m, k, p);
    FillPayload(m.mem[m.free[0]], p);
    var m' := Pushed(m, k, p);
    ListReadable(m', k);
    if k in m.written {
      PushedOld(m, k, p, k);
    }
    hide Filled, Inv;
    var segs := At(m, k);
    forall i | 0 <= i < |segs| ensures Payloads(m', m'.written[k])[i] == Payloads(m, segs)[i] {
      assert m'.written[k][i] == segs[i];
    }
  }

  lemma PushedContents<A>(m: Image<A>, k: string, p: bytes)
    requires Inv(m) && m.free != [] && Fits(p)
    ensures m.free[0] in m.mem && m.mem[m.free[0]] == Zeroed() && Inv(Pushed(m, k, p))
    ensures Contents(Pushed(m, k, p)) == Push(Contents(m), k, p)
  {
    hide OnePlace, Filling, Exactly, NoDup, Filled, Inv;
    PushedNew(m, k, p);
    var m' := Pushed(m, k, p);
    forall k' | k' in m.written && k' != k ensures Contents(m')[k'] == Contents(m)[k'] {
      PushedOld(m, k, p, k');
    }
    assert Contents(m')[k] == Items(Contents(m), k) + [p];
  }

  // ---- release ----

  lemma ExactlyCut<A>(segs: seq<A>, home: map<A, Home>, home': map<A, Home>, h: Home, start: nat, end: nat)
    requires Exactly(segs, home, h) && start <= end <= |segs| && home'.Keys == home.Keys
    requires forall a :: a in home ==> home'[a] == (if a in segs[start..end] then InPool else home[a])
    requires h != InPool
    ensures Exactly(segs[..start] + segs[end..], home', h)
  {
    var out, rest := segs[start..end], segs[..start] + segs[end..];
    forall i | 0 <= i < |rest| ensures rest[i] in segs && rest[i] !in out {
      var j := if i < start then i else i - start + end;
      assert rest[i] == segs[j];
    }
    forall i, j | 0 <= i < j < |rest| ensures rest[i] != rest[j] {
      assert rest[i] == segs[if i < start then i else i - start + end];
      assert rest[j] == segs[if j < start then j else j - start + end];
    }
    forall j | start <= j < end ensures segs[j] in out {
      assert out[j - start] == segs[j];
    }
    forall a | a in home' && home'[a] == h ensures a in rest {
      var i :| 0 <= i < |segs| && segs[i] == a;
      assert rest[if i < start then i else i - end + start] == a;
    }
  }

  lemma ExactlyAll<A>(free: seq<A>, home: map<A, Home>, home': map<A, Home>, out: seq<A>)
    requires Exactly(free, home, InPool) && NoDup(out) && home'.Keys == home.Keys
    requires forall a :: a in out ==> a in home && home[a] != InPool
    requires forall a :: a in home ==> home'[a] == (if a in out then InPool else home[a])
    ensures Exactly(free + out, home', InPool)
  {
    var all := free + out;
    assert forall a :: a in all <==> a in free || a in out;
    forall i, j | 0 <= i < j < |all| ensures all[i] != all[j] {
      assert i < |free| ==> all[i] in free;
      assert j >= |free| ==> all[j] == out[j - |free|] && all[j] in out;
    }
  }

  lemma SliceOfExactly<A>(segs: seq<A>, home: map<A, Home>, h: Home, start: nat, end: nat)
    requires Exactly(segs, home, h) && start <= end <= |segs|
    ensures NoDup(segs[start..end]) && forall a :: a in segs[start..end] ==> a in home && home[a] == h
  {
    var out := segs[start..end];
    forall i | 0 <= i < |out| ensures out[i] in segs {
      assert out[i] == segs[start + i];
    }
  }

  lemma ReleasedPlaces<A>(m: Image<A>, k: string, start: nat, end: nat)
    requires OnePlace(m) && k in m.written && start <= end <= |m.written[k]|
    ensures OnePlace(Released(m, k, start, end))
    ensures forall a :: a in m.written[k][start..end] ==> a in m.home && m.home[a] == InKey(k)
    ensures NoDup(m.written[k][start..end])
  {
    hide Exactly, NoDup;
    var m', out := Released(m, k, start, end), m.written[k][start..end];
    assert Exactly(m.written[k], m.home, InKey(k));
    SliceOfExactly(m.written[k], m.home, InKey(k), start, end);
    ExactlyAll(m.free, m.home, m'.home, out);
    ExactlyCut(m.written[k], m.home, m'.home, InKey(k), start, end);
    forall k' | k' in m.written && k' != k ensures Exactly(m.written[k'], m'.home, InKey(k')) {
      ExactlyFrame(m.written[k'], m.home, m'.home, InKey(k'));
    }
  }

  lemma ReleasedInv<A>(m: Image<A>, k: string, start: nat, end: nat)
    requires Inv(m) && k in m.written && start <= end <= |m.written[k]|
    ensures Inv(Released(m, k, start, end))
  {
    hide OnePlace, NoDup;
    ReleasedPlaces(m, k, start, end);
  }

  /** Segments that stay listed keep their bytes. */
  lemma ReleasedKeeps<A>(m: Image<A>, k: string, start: nat, end: nat, k': string)
    requires Inv(m) && k in m.written && start <= end <= |m.written[k]| && k' in m.written
    ensures var m' := Released(m, k, start, end);
            forall i :: 0 <= i < |m'.written[k']| ==>
              m'.written[k'][i] in m'.mem && m'.written[k'][i] in m.mem && m'.mem[m'.written[k'][i]] == m.mem[m'.written[k'][i]]
  {
    hide NoDup;
    var m' := Released(m, k, start, end);
    ReleasedPlaces(m, k, start, end);
    assert Exactly(m'.written[k'], m'.home, InKey(k'));
    forall i | 0 <= i < |m'.written[k']|
      ensures m'.written[k'][i] in m'.mem && m'.written[k'][i] in m.mem && m'.mem[m'.written[k'][i]] == m.mem[m'.written[k'][i]]
    {
      assert m'.written[k'][i] in m'.written[k'];
    }
  }

  lemma ReleasedList<A>(m: Image<A>, k: string, start: nat, end: nat)
    requires Inv(m) && k in m.written && start <= end <= |m.written[k]|
    ensures var m' := Released(m, k, start, end);
            && Readable(m, m.written[k]) && Readable(m', m'.written[k])
            && Payloads(m', m'.written[k]) == Payloads(m, m.written[k])[..start] + Payloads(m, m.written[k])[end..]
  {
    hide OnePlace, Filling, NoDup, Exactly, Filled;
    var m', segs := Released(m, k, start, end), m.written[k];
    ReleasedInv(m, k, start, end);
    ReleasedKeeps(m, k, start, end, k);
    ListReadable(m, k);
    ListReadable(m', k);
    var rest := m'.written[k];
    forall i | 0 <= i < |rest| ensures Payloads(m', rest)[i] == (Payloads(m, segs)[..start] + Payloads(m, segs)[end..])[i] {
      assert rest[i] == segs[if i < start then i else i - start + end];
    }
  }

  lemma ReleasedOther<A>(m: Image<A>, k: string, start: nat, end: nat, k': string)
    requires Inv(m) && k in m.written && start <= end <= |m.written[k]| && k' in m.written && k' != k
    ensures var m' := Released(m, k, start, end);
            && k' in m'.written && m'.written[k'] == m.written[k'] && Readable(m, m.written[k']) && Readable(m', m.written[k'])
            && Payloads(m', m.written[k']) == Payloads(m, m.written[k'])
  {
    hide OnePlace, Filling, NoDup, Exactly, Filled;
    ReleasedKeeps(m, k, start, end, k');
    ListReadable(m, k');
    PayloadsFrame(m, Released(m, k, start, end), m.written[k']);
  }

  lemma ReleasedContents<A>(m: Image<A>, k: string, start: nat, end: nat)
    requires Inv(m) && k in m.written && start <= end <= |m.written[k]|
    ensures Inv(Released(m, k, start, end)) && k in Contents(m) && |Contents(m)[k]| == |m.written[k]|
    ensures Contents(Released(m, k, start, end)) == Contents(m)[k := Contents(m)[k][..start] + Contents(m)[k][end..]]
  {
    hide OnePlace, Filling, NoDup, Exactly, Filled;
    ReleasedInv(m, k, start, end);
    ReleasedList(m, k, start, end);
    hide Inv;
    forall k' | k' in m.written && k' != k ensures Contents(Released(m, k, start, end))[k'] == Contents(m)[k'] {
      ReleasedOther(m, k, start, end, k');
    }
  }

  // ---- growth ----

  function InPoolAll<A(==)>(segs: seq<A>): (h: map<A, Home>)
    ensures forall a :: a in h ==> a in segs && h[a] == InPool
    ensures forall a :: a in segs ==> a in h
  {
    map a | a in segs :: InPool
  }

  function Grown<A(==)>(m: Image<A>, more: seq<A>): Image<A> {
    m.(free := m.free + more, home := m.home + InPoolAll(more), mem := m.mem + (map a | a in more :: Zeroed()))
  }

  lemma GrownPlaces<A>(m: Image<A>, more: seq<A>)
    requires OnePlace(m) && NoDup(more) && forall a :: a in more ==> a !in m.home
    ensures OnePlace(Grown(m, more))
  {
    var m' := Grown(m, more);
    ExactlyGrown(m.free, m.home, more);
    hide Exactly, NoDup;
    forall k | k in m.written ensures Exactly(m.written[k], m'.home, InKey(k)) {
      ExactlyFrame(m.written[k], m.home, m'.home, InKey(k));
    }
  }

  lemma GrownInv<A>(m: Image<A>, more: seq<A>)
    requires Inv(m) && NoDup(more) && forall a :: a in more ==> a !in m.home
    ensures Inv(Grown(m, more)) && Contents(Grown(m, more)) == Contents(m)
  {
    hide Filled, OnePlace, NoDup, Exactly;
    var m' := Grown(m, more);
    GrownPlaces(m, more);
    assert Filling(m');
    forall k | k in m.written ensures Contents(m')[k] == Contents(m)[k] {
      ListReadable(m, k);
      ListReadable(m', k);
      assert forall a :: a in m.mem ==> a in m'.mem && m'.mem[a] == m.mem[a];
      hide Filling;
      PayloadsFrame(m, m', m.written[k]);
    }
  }

  lemma ExactlyGrown<A>(free: seq<A>, home: map<A, Home>, more: seq<A>)
    requires Exactly(free, home, InPool) && NoDup(more) && forall a :: a in more ==> a !in home
    ensures Exactly(free + more, home + InPoolAll(more), InPool)
  {
    var all := free + more;
    assert forall a :: a in all <==> a in free || a in more;
    forall i, j | 0 <= i < j < |all| ensures all[i] != all[j] {
      assert i < |free| ==> all[i] in free;
      assert j >= |free| ==> all[j] == more[j - |free|] && all[j] in more;
    }
  }

  lemma GrownSize<A>(m: Image<A>, more: seq<A>)
    requires NoDup(more) && forall a :: a in more ==> a !in m.home
    ensures |Grown(m, more).home| == |m.home| + |more|
  {
    SizeOfDistinct(more);
    var home' := Grown(m, more).home;
    assert home'.Keys == m.home.Keys + (set a | a in more);
    assert |home'.Keys| == |m.home.Keys| + |more|;
  }

  lemma {:induction false} SizeOfDistinct<A>(s: seq<A>)
    requires NoDup(s)
    ensures |set a | a in s| == |s|
  {
    if s != [] {
      var t := s[..|s| - 1];
      SizeOfDistinct(t);
      assert (set a | a in s) == (set a | a in t) + {s[|s| - 1]};
    }
  }

  /** The initial pool and one more for each growth. */
  ghost predicate PoolSize<A>(home: map<A, Home>, growths: nat) {
    |home| == POOL + POOL * growths
  }

  ghost function FreeSet<A>(m: Image<A>): set<A> {
    set a | a in m.free
  }

  ghost function UsedSet<A>(m: Image<A>): set<A> {
    set a | a in m.home && m.home[a].InKey?
  }

  lemma FreeOrUsed<A>(m: Image<A>)
    requires OnePlace(m)
    ensures FreeSet(m) !! UsedSet(m) && FreeSet(m) + UsedSet(m) == m.home.Keys
  {
    assert Exactly(m.free, m.home, InPool);
    forall a ensures a in FreeSet(m) <==> a in m.home && m.home[a].InPool? {
    }
  }

  lemma FreeDistinct<A>(m: Image<A>)
    requires OnePlace(m)
    ensures |FreeSet(m)| == |m.free|
  {
    SizeOfDistinct(m.free);
  }

  lemma UsedListed<A>(m: Image<A>)
    requires OnePlace(m)
    ensures forall a :: a in UsedSet(m) ==> a in m.written[m.home[a].key]
  {
    forall a | a in UsedSet(m) ensures a in m.written[m.home[a].key] {
      assert Exactly(m.written[m.home[a].key], m.home, m.home[a]);
    }
  }

  /** Free and written segments are disjoint, each written one is in its list, and together they are the pool: the
      initial one and as much again for each growth. */
  lemma FreePlusWritten<A>(m: Image<A>, growths: nat)
    requires OnePlace(m) && PoolSize(m.home, growths)
    ensures FreeSet(m) !! UsedSet(m) && FreeSet(m) + UsedSet(m) == m.home.Keys
    ensures |m.free| + |UsedSet(m)| == POOL + POOL * growths
    ensures forall a :: a in UsedSet(m) ==> a in m.written[m.home[a].key]
  {
    FreeOrUsed(m);
    FreeDistinct(m);
    UsedListed(m);
    hide OnePlace, FreeSet, UsedSet;
    DisjointSize(FreeSet(m), UsedSet(m));
    assert |m.home.Keys| == |m.home|;
  }

  lemma DisjointSize<A>(a: set<A>, b: set<A>)
    requires a !! b
    ensures |a + b| == |a| + |b|
  {
  }

  lemma GrownAll<A>(m: Image<A>, more: seq<A>, growths: nat)
    requires Inv(m) && PoolSize(m.home, growths) && |more| == POOL && NoDup(more) && forall a :: a in more ==> a !in m.home
    ensures var m' := Grown(m, more);
            && Inv(m') && Contents(m') == Contents(m) && PoolSize(m'.home, growths + 1)
            && m'.free == m.free + more && m'.written == m.written && m'.mem.Keys == m'.home.Keys
            && (forall a :: a in m'.home ==> a in more || a in m.home)
            && (forall a :: a in more ==> a in m'.home && m'.mem[a] == Zeroed())
            && (forall a :: a in m.home ==> a in m'.home && a in m.mem && m'.mem[a] == m.mem[a])
  {
    GrownInv(m, more);
    GrownSize(m, more);
  }

  /** What the pusher needs to know of `Pushed`. */
  lemma PushedAll<A>(m: Image<A>, k: string, p: bytes, growths: nat)
    requires Inv(m) && PoolSize(m.home, growths) && m.free != [] && Fits(p)
    ensures m.free[0] in m.home && m.free[0] in m.mem && |m.mem[m.free[0]]| == SEGMENT_SIZE
    ensures var a, m' := m.free[0], Pushed(m, k, p);
            && Inv(m') && Contents(m') == Push(Contents(m), k, p) && PoolSize(m'.home, growths)
            && m'.free == m.free[1..] && m'.written == m.written[k := (if k in m.written then m.written[k] else []) + [a]]
            && m'.home.Keys == m.home.Keys == m'.mem.Keys == m.mem.Keys && m'.mem[a] == Fill(m.mem[a], p)
            && (forall x :: x in m.home && x != a ==> m'.mem[x] == m.mem[x])
  {
    hide OnePlace, Contents, Fill;
    PushedContents(m, k, p);
    PushedPlaces(m, k, p);
    var m' := Pushed(m, k, p);
    assert m'.home.Keys == m.home.Keys;
    assert |m'.home.Keys| == |m.home.Keys|;
  }

  /** What the releaser needs to know of `Released`. */
  lemma ReleasedAll<A>(m: Image<A>, k: string, start: nat, end: nat, growths: nat)
    requires Inv(m) && PoolSize(m.home, growths) && k in m.written && start <= end <= |m.written[k]|
    ensures var out, m' := m.written[k][start..end], Released(m, k, start, end);
            && Inv(m') && PoolSize(m'.home, growths)
            && k in Contents(m) && |Contents(m)[k]| == |m.written[k]|
            && Contents(m') == Contents(m)[k := Contents(m)[k][..start] + Contents(m)[k][end..]]
            && m'.free == m.free + out && m'.written == m.written[k := m.written[k][..start] + m.written[k][end..]]
            && m'.home.Keys == m.home.Keys == m'.mem.Keys == m.mem.Keys
            && (forall a :: a in m.home ==> m'.mem[a] == if a in out then Zeroed() else m.mem[a])
            && NoDup(out) && (forall a :: a in out ==> a in m.home)
            && (forall i :: 0 <= i < |out| ==> out[i] in m.mem && Filled(m.mem[out[i]]) && Payload(m.mem[out[i]]) == Contents(m)[k][start + i])
  {
    hide OnePlace, NoDup, Exactly;
    ReleasedContents(m, k, start, end);
    ReleasedPlaces(m, k, start, end);
    ListReadable(m, k);
    var m', out := Released(m, k, start, end), m.written[k][start..end];
    assert m'.home.Keys == m.home.Keys;
    assert |m'.home.Keys| == |m.home.Keys|;
    hide Inv, Filling, Released;
    forall i | 0 <= i < |out| ensures out[i] in m.mem && Filled(m.mem[out[i]]) && Payload(m.mem[out[i]]) == Contents(m)[k][start + i] {
      assert out[i] == m.written[k][start + i];
    }
  }

  lemma SameKeys<A>(m: Image<A>)
    requires Inv(m)
    ensures Contents(m).Keys == m.written.Keys && forall k :: k in m.written ==> |Contents(m)[k]| == |m.written[k]|
  {
    hide Inv, Readable;
  }

  lemma TouchedInv<A>(m: Image<A>, k: string)
    requires Inv(m) && k !in m.written
    ensures Inv(m.(written := m.written[k := []]))
  {
    hide Filled;
    assert Exactly([], m.home, InKey(k));
    hide Exactly;
  }

  /** An empty list appears under a new key. */
  lemma Touched<A>(m: Image<A>, k: string)
    requires Inv(m) && k !in m.written
    ensures var m' := m.(written := m.written[k := []]); Inv(m') && Contents(m') == Len(Contents(m), k)
  {
    hide OnePlace, Filling, Exactly, Filled, Inv;
    TouchedInv(m, k);
    var m' := m.(written := m.written[k := []]);
    forall k' | k' in m.written ensures Contents(m')[k'] == Contents(m)[k'] {
      ListReadable(m, k');
      PayloadsFrame(m, m', m.written[k']);
    }
  }

  lemma PushNothing(m: Lists, k: string)
    ensures PushRange(m, k, []) == m && PushRangeReply([]) == Ok(())
  {
  }

  /** The loop that allocates a pool's worth of zeroed segments. */
  method AllocPool() returns (segs: seq<array<byte>>)
    ensures |segs| == POOL && NoDup(segs) && fresh(segs)
    ensures forall a :: a in segs ==> a[..] == Zeroed()
  {
    segs := [];
    for n := 0 to POOL
      invariant |segs| == n && NoDup(segs) && fresh(segs)
      invariant forall i :: 0 <= i < n ==> segs[i].Length == SEGMENT_SIZE && segs[i][..] == Zeroed()
    {
      var a := new byte[SEGMENT_SIZE](_ => 0);
      assert a[..] == Zeroed();
      segs := segs + [a];
    }
  }

  class SegList {
    var written: map<string, seq<array<byte>>>
    var freeSegs: seq<array<byte>>
    /** Every segment there is, and where it belongs. */
    ghost var home: map<array<byte>, Home>
    ghost var growths: nat

    ghost function Mem(): (m: map<array<byte>, bytes>)
      reads this, home.Keys
      ensures m.Keys == home.Keys && forall a :: a in home ==> m[a] == a[..]
    {
      map a | a in home :: a[..]
    }

    ghost function Img(): Image<array<byte>>
      reads this, home.Keys
    {
      Image(freeSegs, written, home, Mem())
    }

    ghost predicate Valid()
      reads this, home.Keys
    {
      Inv(Img()) && PoolSize(home, growths)
    }

    ghost function View(): Lists
      requires Valid()
      reads this, home.Keys
    {
      Contents(Img())
    }

    constructor ()
      ensures Valid() && View() == map[] && growths == 0 && fresh(home.Keys)
    {
      written, freeSegs, home, growths := map[], [], map[], 0;
      new;
      var segs := AllocPool();
      freeSegs := segs;
      home := InPoolAll(segs);
      SizeOfDistinct(segs);
      assert home.Keys == set a | a in segs;
    }

    method GrowSegs()
      requires Valid()
      modifies this
      ensures Valid() && View() == old(View()) && growths == old(growths) + 1 && fresh(home.Keys - old(home.Keys))
      ensures |freeSegs| == |old(freeSegs)| + POOL
    {
      hide Inv, NoDup, Contents, Zeroed, SegLog.Zeroed, PoolSize, Grown;
      var segs := AllocPool();
      assert forall a :: a in segs ==> a !in home;
      GrownAll(Img(), segs, growths);
      ghost var m := Grown(Img(), segs);
      assert Mem().Keys == home.Keys && forall a :: a in home ==> Mem()[a] == a[..];
      forall a | a in m.home ensures m.mem[a] == a[..] {
        assert a in segs || a in home;
      }
      freeSegs := freeSegs + segs;
      Become(m, growths + 1);
    }

    /** The ghost state follows the real one. */
    ghost method Become(m: Image<array<byte>>, n: nat)
      requires m.free == freeSegs && m.written == written && m.mem.Keys == m.home.Keys
      requires forall a :: a in m.home ==> m.mem[a] == a[..]
      modifies this`home, this`growths
      ensures Img() == m && growths == n
    {
      home, growths := m.home, n;
      assert Mem() == m.mem;
    }

    method Push(key: string, payload: bytes) returns (r: Result<(), ListError>)
      requires Valid()
      modifies this, home.Keys
      ensures Valid() && fresh(home.Keys - old(home.Keys))
      ensures View() == ListSpec.Push(old(View()), key, payload) && r == PushReply(payload)
    {
      hide Inv, Contents, PoolSize;
      if |freeSegs| == 0 {
        GrowSegs();
      }
      var total := HEADER_SIZE + |payload|;
      if total > SEGMENT_SIZE {
        return Err(EntryTooLarge);
      }
      FillFirst(key, payload);
      return Ok(());
    }

    /** Writes the payload into the first free segment and appends that to the list. */
    method FillFirst(key: string, payload: bytes)
      requires Valid() && freeSegs != [] && Fits(payload)
      modifies this, home.Keys
      ensures Valid() && home.Keys == old(home.Keys) && growths == old(growths)
      ensures View() == ListSpec.Push(old(View()), key, payload)
    {
      hide Inv, Contents, PoolSize, Pushed, Filled;
      PushedAll(Img(), key, payload, growths);
      ghost var m := Pushed(Img(), key, payload);
      var firstFree := freeSegs[0];
      freeSegs := freeSegs[1..];
      SegLog.CopyInto(firstFree, 16, ToLe(|payload|, 4));
      if |payload| > 0 {
        SegLog.CopyInto(firstFree, HEADER_SIZE, payload);
      }
      written := written[key := (if key in written then written[key] else []) + [firstFree]];
      Become(m, growths);
    }

    /** Reads a segment's payload, zeroes it and returns it to the pool. */
    method Reclaim(seg: array<byte>) returns (data: bytes)
      requires Filled(seg[..])
      modifies seg, this`freeSegs
      ensures data == Payload(old(seg[..])) && seg[..] == Zeroed() && freeSegs == old(freeSegs) + [seg]
    {
      assert seg[16..20] == seg[..][16..20];
      var len := FromLe(seg[16..20]);
      assert seg[HEADER_SIZE..HEADER_SIZE + len] == seg[..][HEADER_SIZE..HEADER_SIZE + len];
      data := seg[HEADER_SIZE..HEADER_SIZE + len];
      SegLog.Zero(seg);
      freeSegs := freeSegs + [seg];
    }

    method Pop(key: string) returns (r: Result<bytes, ListError>)
      requires Valid()
      modifies this, home.Keys
      ensures Valid() && home.Keys == old(home.Keys)
      ensures View() == ListSpec.Pop(old(View()), key) && r == PopReply(old(View()), key)
    {
      hide Inv, Contents, PoolSize, Released, Filled, Payload, NoDup, Zeroed;
      SameKeys(Img());
      if key !in written || |written[key]| == 0 {
        return Err(KeyNotFound);
      }
      ReleasedAll(Img(), key, 0, 1, growths);
      ghost var m := Released(Img(), key, 0, 1);
      var segs := written[key];
      assert segs[0..1] == [segs[0]] && segs[..0] + segs[1..] == segs[1..];
      assert segs[0] in segs[0..1];
      written := written[key := segs[1..]];
      var data := Reclaim(segs[0]);
      Become(m, growths);
      assert old(View())[key][..0] + old(View())[key][1..] == old(View())[key][1..];
      return Ok(data);
    }

    method PushRange(key: string, items: seq<bytes>) returns (r: Result<(), ListError>)
      requires Valid()
      modifies this, home.Keys
      ensures Valid() && fresh(home.Keys - old(home.Keys))
      ensures View() == ListSpec.PushRange(old(View()), key, items) && r == PushRangeReply(items)
    {
      hide Inv, Contents, PoolSize, ListSpec.PushRange, PushRangeReply, Fitting, ListSpec.Push;
      if |freeSegs| < |items| {
        GrowSegs();
      }
      ghost var want, reply := ListSpec.PushRange(View(), key, items), PushRangeReply(items);
      assert items[0..] == items;
      for i := 0 to |items|
        invariant Valid() && fresh(home.Keys - old(home.Keys))
        invariant ListSpec.PushRange(View(), key, items[i..]) == want && PushRangeReply(items[i..]) == reply
      {
        assert items[i..][0] == items[i] && items[i..][1..] == items[i + 1..];
        PushRangeStep(View(), key, items[i..]);
        var ok := Push(key, items[i]);
        if ok.Err? {
          return ok;
        }
      }
      assert items[|items|..] == [];
      PushNothing(View(), key);
      return Ok(());
    }

    /** Pops `count + 1` times, giving up at the first failure. */
    method PopCount(key: string, count: nat) returns (r: Result<seq<bytes>, ListError>)
      requires Valid()
      modifies this, home.Keys
      ensures Valid() && home.Keys == old(home.Keys)
      ensures View() == ListSpec.PopCount(old(View()), key, count) && r == PopCountReply(old(View()), key, count)
    {
      hide Inv, Contents, PoolSize;
      var items := [];
      ghost var was := View();
      for i := 0 to count + 1
        invariant Valid() && home.Keys == old(home.Keys)
        invariant i <= |Items(was, key)| && items == Items(was, key)[..i]
        invariant View() == if i == 0 then was else was[key := was[key][i..]]
      {
        var item := Pop(key);
        if item.Err? {
          return Err(item.error);
        }
        items := items + [item.value];
      }
      return Ok(items);
    }

    /** Reclaims segments one after the other. */
    method ReclaimAll(out: seq<array<byte>>) returns (data: seq<bytes>)
      requires NoDup(out) && forall i :: 0 <= i < |out| ==> Filled(out[i][..])
      modifies this`freeSegs, out
      ensures |data| == |out| && forall i :: 0 <= i < |out| ==> data[i] == Payload(old(out[i][..]))
      ensures freeSegs == old(freeSegs) + out && forall i :: 0 <= i < |out| ==> out[i][..] == Zeroed()
    {
      hide Filled, Payload, Zeroed;
      data := [];
      for n := 0 to |out|
        invariant |data| == n && forall i :: 0 <= i < n ==> data[i] == Payload(old(out[i][..]))
        invariant freeSegs == old(freeSegs) + out[..n] && forall i :: 0 <= i < n ==> out[i][..] == Zeroed()
        invariant forall i :: n <= i < |out| ==> out[i][..] == old(out[i][..])
      {
        var item := Reclaim(out[n]);
        data := data + [item];
        assert out[..n] + [out[n]] == out[..n + 1];
      }
      assert out[..|out|] == out;
    }

    method PopRange(key: string, start: nat, end: nat) returns (r: Result<seq<bytes>, ListError>)
      requires Valid() && Drainable(View(), key, start, end)
      modifies this, home.Keys
      ensures Valid() && home.Keys == old(home.Keys)
      ensures View() == ListSpec.PopRange(old(View()), key, start, end) && r == PopRangeReply(old(View()), key, start, end)
    {
      hide Inv, PoolSize, Filled, Payload, NoDup;
      if key !in written {
        return Err(KeyNotFound);
      }
      if end > |written[key]| {
        return Err(OutOfRange);
      }
      var data := Drain(key, start, end);
      return Ok(data);
    }

    /** Takes a range out of a list and reclaims it. */
    method Drain(key: string, start: nat, end: nat) returns (data: seq<bytes>)
      requires Valid() && key in View() && start <= end <= |View()[key]|
      modifies this, home.Keys
      ensures Valid() && home.Keys == old(home.Keys)
      ensures View() == old(View())[key := old(View())[key][..start] + old(View())[key][end..]]
      ensures data == old(View())[key][start..end]
    {
      hide Inv, Contents, PoolSize, Released, Filled, Payload, NoDup, Zeroed;
      SameKeys(Img());
      ReleasedAll(Img(), key, start, end, growths);
      ghost var m, items := Released(Img(), key, start, end), View()[key][start..end];
      ghost var view := View();
      assert forall i :: 0 <= i < end - start ==> items[i] == view[key][start + i];
      data := TakeOut(key, start, end, m, items);
    }

    /** The segments of the range leave the list, and one by one go back to the pool. */
    method TakeOut(key: string, start: nat, end: nat, ghost m: Image<array<byte>>, ghost items: seq<bytes>) returns (data: seq<bytes>)
      requires key in written && start <= end <= |written[key]| && |items| == end - start
      requires NoDup(written[key][start..end]) && forall a :: a in written[key][start..end] ==> a in home
      requires var out := written[key][start..end];
               forall i :: 0 <= i < |out| ==> Filled(out[i][..]) && Payload(out[i][..]) == items[i]
      requires m.free == freeSegs + written[key][start..end] && m.home.Keys == home.Keys == m.mem.Keys
      requires m.written == written[key := written[key][..start] + written[key][end..]]
      requires forall a :: a in home ==> m.mem[a] == if a in written[key][start..end] then Zeroed() else a[..]
      modifies this, home.Keys
      ensures Img() == m && growths == old(growths) && data == items
    {
      hide Filled, Payload, NoDup, Zeroed;
      var segs := written[key];
      var out := segs[start..end];
      assert forall i :: 0 <= i < |out| ==> out[i] in out;
      written := written[key := segs[..start] + segs[end..]];
      data := ReclaimAll(out);
      Become(m, growths);
    }

    /** How many items a key has, if it is there. */
    method Find(key: string) returns (n: Option<nat>)
      requires Valid()
      ensures n == if key in View() then Some(|View()[key]|) else None
    {
      hide Inv, Contents, PoolSize;
      SameKeys(Img());
      return if key in written then Some(|written[key]|) else None;
    }

    method Len(key: string) returns (n: nat)
      requires Valid()
      modifies this
      ensures Valid() && home == old(home)
      ensures View() == ListSpec.Len(old(View()), key) && n == |Items(old(View()), key)|
    {
      hide Inv, PoolSize;
      if key !in written {
        Touched(Img(), key);
        written := written[key := []];
        assert Img() == old(Img()).(written := written);
      } else {
        assert View()[key := View()[key]] == View();
      }
      n := |written[key]|;
    }

    method Flush(key: string) returns (r: Result<(), ListError>)
      requires Valid()
      modifies this, home.Keys
      ensures Valid() && home.Keys == old(home.Keys)
      ensures View() == ListSpec.Flush(old(View()), key) && r == FlushReply(old(View()), key)
    {
      hide Inv, PoolSize, Filled, Payload, NoDup;
      if key !in written {
        return Err(KeyNotFound);
      }
      var n := |written[key]|;
      var _ := Drain(key, 0, n);
      return Ok(());
    }
  }
}
