/** The LRU cache as it is built: a doubly linked list threaded by index through a vector of slots,
    with a key map, a reverse map and a stack of free slots. */
module Lru {
  import opened Bytes
  import opened LruSpec

  const NULL: nat := U64_MAX

  datatype Slot<V> = Slot(value: V, expiresAt: int, prev: nat, next: nat)

  type Slots<V> = seq<Option<Slot<V>>>

  /** The linked list: its slots and its two ends. */
  datatype Links<V> = Links(entries: Slots<V>, head: nat, tail: nat) {
    predicate Occupied(s: nat) {
      s < |entries| && entries[s].Some?
    }

    predicate Detachable(s: nat) {
      && Occupied(s)
      && (entries[s].value.prev != NULL ==> Occupied(entries[s].value.prev))
      && (entries[s].value.next != NULL ==> Occupied(entries[s].value.next))
    }

    function WithNext(s: nat, next: nat): Links<V>
      requires s != NULL ==> Occupied(s)
    {
      if s != NULL then this.(entries := entries[s := Some(entries[s].value.(next := next))]) else this.(head := next)
    }

    function WithPrev(s: nat, prev: nat): Links<V>
      requires s != NULL ==> Occupied(s)
    {
      if s != NULL then this.(entries := entries[s := Some(entries[s].value.(prev := prev))]) else this.(tail := prev)
    }

    /** The neighbours of `s` now point at each other. */
    function Detached(s: nat): Links<V>
      requires Detachable(s)
    {
      var e := entries[s].value;
      WithNext(e.prev, e.next).WithPrev(e.next, e.prev)
    }

    function Attached(s: nat): Links<V>
      requires Occupied(s) && (head != NULL ==> Occupied(head))
    {
      var l := this.(entries := entries[s := Some(entries[s].value.(prev := NULL, next := head))]);
      l.WithPrev(head, s).(head := s)
    }
  }

  function Before(order: seq<nat>, i: nat): nat
    requires i < |order|
  {
    if i == 0 then NULL else order[i - 1]
  }

  function After(order: seq<nat>, i: nat): nat
    requires i < |order|
  {
    if i == |order| - 1 then NULL else order[i + 1]
  }

  ghost predicate LinkedAt<V>(l: Links<V>, order: seq<nat>, i: nat)
    requires i < |order|
  {
    && l.Occupied(order[i])
    && l.entries[order[i]].value.prev == Before(order, i)
    && l.entries[order[i]].value.next == After(order, i)
  }

  /** The links, read from the head forwards or from the tail backwards, spell out `order`. */
  ghost predicate Linked<V>(l: Links<V>, order: seq<nat>) {
    && |l.entries| <= NULL && NoDup(order)
    && (forall i :: 0 <= i < |order| ==> LinkedAt(l, order, i))
    && l.head == (if order == [] then NULL else order[0])
    && l.tail == (if order == [] then NULL else order[|order| - 1])
  }

  /** The two vectors differ at most in links. */
  ghost predicate SameData<V>(a: Slots<V>, b: Slots<V>) {
    && |a| == |b|
    && forall s :: 0 <= s < |a| ==>
         && a[s].Some? == b[s].Some?
         && (a[s].Some? ==> a[s].value.value == b[s].value.value && a[s].value.expiresAt == b[s].value.expiresAt)
  }

  function Cut(order: seq<nat>, p: nat): seq<nat>
    requires p < |order|
  {
    order[..p] + order[p + 1..]
  }

  lemma CutMembers(order: seq<nat>, p: nat)
    requires NoDup(order) && p < |order|
    ensures NoDup(Cut(order, p))
    ensures forall s :: s in Cut(order, p) <==> s in order && s != order[p]
  {
    forall s | s in order && s != order[p] ensures s in Cut(order, p) {
      var i :| 0 <= i < |order| && order[i] == s;
      assert Cut(order, p)[if i < p then i else i - 1] == s;
    }
  }

  /** Detaching position `p` leaves a linked list without it, and no data changed. */
  lemma DetachedLinked<V>(l: Links<V>, order: seq<nat>, p: nat)
    requires Linked(l, order) && p < |order|
    ensures l.Detachable(order[p])
    ensures Linked(l.Detached(order[p]), Cut(order, p)) && SameData(l.Detached(order[p]).entries, l.entries)
  {
    assert LinkedAt(l, order, p);
    assert p > 0 ==> LinkedAt(l, order, p - 1);
    assert p < |order| - 1 ==> LinkedAt(l, order, p + 1);
    CutMembers(order, p);
    forall i | 0 <= i < |order| - 1 ensures LinkedAt(l.Detached(order[p]), Cut(order, p), i) {
      assert LinkedAt(l, order, if i < p then i else i + 1);
    }
  }

  /** Attaching an unlinked slot puts it in front, and no data changed. */
  lemma AttachedLinked<V>(l: Links<V>, order: seq<nat>, s: nat)
    requires Linked(l, order) && l.Occupied(s) && s !in order
    ensures l.head != NULL ==> l.Occupied(l.head)
    ensures Linked(l.Attached(s), [s] + order) && SameData(l.Attached(s).entries, l.entries)
  {
    assert order != [] ==> LinkedAt(l, order, 0);
    forall i | 0 <= i <= |order| ensures LinkedAt(l.Attached(s), [s] + order, i) {
      assert i > 0 ==> LinkedAt(l, order, i - 1);
    }
  }

  /** Slots outside the list may change freely. */
  lemma LinkedFrame<V>(l: Links<V>, l': Links<V>, order: seq<nat>)
    requires Linked(l, order) && |l.entries| <= |l'.entries| <= NULL && l'.head == l.head && l'.tail == l.tail
    requires forall s :: 0 <= s < |l.entries| && s in order ==> l'.entries[s] == l.entries[s]
    ensures Linked(l', order)
  {
    forall i | 0 <= i < |order| ensures LinkedAt(l', order, i) {
      assert order[i] in order && LinkedAt(l, order, i);
    }
  }

  /** The whole representation; `order` lists the linked slots, most recent first. */
  datatype Image<K, V> = Image(index: map<K, nat>, reverse: seq<Option<K>>, links: Links<V>, free: seq<nat>, order: seq<nat>)

  /** Every occupied slot carries a key, and the key map and the reverse map are inverse. */
  ghost predicate Indexed<K, V>(m: Image<K, V>) {
    && |m.reverse| == |m.links.entries|
    && (forall s :: 0 <= s < |m.reverse| ==> m.reverse[s].Some? == m.links.entries[s].Some?)
    && (forall s :: 0 <= s < |m.reverse| && m.reverse[s].Some? ==>
          m.reverse[s].value in m.index && m.index[m.reverse[s].value] == s)
    && (forall k :: k in m.index ==> m.index[k] < |m.reverse| && m.reverse[m.index[k]] == Some(k))
  }

  /** Every slot is linked if it is occupied, and free if it is not. */
  ghost predicate Partitioned<V>(entries: Slots<V>, free: seq<nat>, order: seq<nat>) {
    && |order| + |free| == |entries| && NoDup(free)
    && (forall i :: 0 <= i < |free| ==> free[i] < |entries| && entries[free[i]].None?)
    && (forall s {:trigger s in order} :: 0 <= s < |entries| && entries[s].Some? ==> s in order)
    && (forall s {:trigger s in free} :: 0 <= s < |entries| && entries[s].None? ==> s in free)
  }

  ghost predicate Inv<K, V>(m: Image<K, V>) {
    && Linked(m.links, m.order) && Indexed(m) && Partitioned(m.links.entries, m.free, m.order)
    && |m.index| == |m.order|
  }

  ghost predicate Readable<K, V>(m: Image<K, V>) {
    forall i :: 0 <= i < |m.order| ==>
      m.links.Occupied(m.order[i]) && m.order[i] < |m.reverse| && m.reverse[m.order[i]].Some?
  }

  ghost function ItemIn<K, V>(m: Image<K, V>, s: nat): Item<K, V>
    requires m.links.Occupied(s) && s < |m.reverse| && m.reverse[s].Some?
  {
    Item(m.reverse[s].value, m.links.entries[s].value.value, m.links.entries[s].value.expiresAt)
  }

  ghost function Items<K, V>(m: Image<K, V>): (c: Cache<K, V>)
    requires Readable(m)
    ensures |c| == |m.order|
    ensures forall i :: 0 <= i < |m.order| ==> c[i] == ItemIn(m, m.order[i])
  {
    seq(|m.order|, i requires 0 <= i < |m.order| => ItemIn(m, m.order[i]))
  }

  lemma InvReadable<K, V>(m: Image<K, V>)
    requires Linked(m.links, m.order) && Indexed(m)
    ensures Readable(m)
  {
    forall i | 0 <= i < |m.order|
      ensures m.links.Occupied(m.order[i]) && m.order[i] < |m.reverse| && m.reverse[m.order[i]].Some?
    {
      assert LinkedAt(m.links, m.order, i);
    }
  }

  lemma ItemsDistinct<K, V>(m: Image<K, V>)
    requires Inv(m) && Readable(m)
    ensures DistinctKeys(Items(m))
  {
    forall i, j | 0 <= i < j < |m.order| ensures Items(m)[i].key != Items(m)[j].key {
      assert m.order[i] != m.order[j];
    }
  }

  /** The image after dropping position `p`: its key leaves both maps and its slot becomes free. */
  function Dropped<K(==), V>(m: Image<K, V>, p: nat, k: K): Image<K, V>
    requires p < |m.order| && m.order[p] < |m.reverse| && m.links.Detachable(m.order[p])
  {
    var s := m.order[p];
    var l := m.links.Detached(s);
    Image(m.index - {k}, m.reverse[s := None], l.(entries := l.entries[s := None]), m.free + [s], Cut(m.order, p))
  }

  lemma FreedPartition<V>(entries: Slots<V>, entries': Slots<V>, free: seq<nat>, order: seq<nat>, p: nat)
    requires Partitioned(entries, free, order) && NoDup(order) && p < |order| && order[p] < |entries| && entries[order[p]].Some?
    requires SameData(entries', entries)
    ensures Partitioned(entries'[order[p] := None], free + [order[p]], Cut(order, p))
  {
    CutMembers(order, p);
    var free' := free + [order[p]];
    assert forall s :: s in free' <==> s in free || s == order[p];
  }

  lemma DroppedIndexed<K, V>(m: Image<K, V>, p: nat, k: K)
    requires Indexed(m) && p < |m.order| && m.links.Detachable(m.order[p])
    requires m.order[p] < |m.reverse| && m.reverse[m.order[p]] == Some(k)
    requires SameData(m.links.Detached(m.order[p]).entries, m.links.entries)
    ensures Indexed(Dropped(m, p, k)) && |Dropped(m, p, k).index| == |m.index| - 1
  {
    assert Dropped(m, p, k).index.Keys == m.index.Keys - {k};
  }

  ghost predicate SameItems<K, V>(m: Image<K, V>, m': Image<K, V>, slots: seq<nat>) {
    forall s :: s in slots ==>
      && s < |m.reverse| && s < |m'.reverse| && m.reverse[s] == m'.reverse[s] && m.links.Occupied(s) && m'.links.Occupied(s)
      && m.links.entries[s].value.value == m'.links.entries[s].value.value
      && m.links.entries[s].value.expiresAt == m'.links.entries[s].value.expiresAt
  }

  /** `m'` lists the slots of `m` without position `p`, with the same items in them. */
  lemma ItemsWithout<K, V>(m: Image<K, V>, m': Image<K, V>, p: nat)
    requires Readable(m) && Readable(m') && p < |m.order| && m'.order == Cut(m.order, p)
    requires SameItems(m, m', m'.order)
    ensures Items(m') == Items(m)[..p] + Items(m)[p + 1..]
  {
    forall i | 0 <= i < |m'.order| ensures Items(m')[i] == Items(m)[if i < p then i else i + 1] {
      assert m'.order[i] in m'.order && m'.order[i] == m.order[if i < p then i else i + 1];
    }
  }

  lemma DroppedLinked<K, V>(m: Image<K, V>, p: nat, k: K)
    requires Linked(m.links, m.order) && p < |m.order| && m.order[p] < |m.reverse|
    ensures m.links.Detachable(m.order[p]) && SameData(m.links.Detached(m.order[p]).entries, m.links.entries)
    ensures Linked(Dropped(m, p, k).links, Dropped(m, p, k).order)
    ensures forall s :: s in Dropped(m, p, k).order ==> s != m.order[p]
  {
    DetachedLinked(m.links, m.order, p);
    CutMembers(m.order, p);
    LinkedFrame(m.links.Detached(m.order[p]), Dropped(m, p, k).links, Cut(m.order, p));
  }

  lemma DroppedSame<K, V>(m: Image<K, V>, p: nat, k: K)
    requires Readable(m) && p < |m.order| && NoDup(m.order) && m.links.Detachable(m.order[p]) && m.order[p] < |m.reverse|
    requires SameData(m.links.Detached(m.order[p]).entries, m.links.entries)
    ensures SameItems(m, Dropped(m, p, k), Cut(m.order, p))
  {
    CutMembers(m.order, p);
  }

  lemma DroppedInv<K, V>(m: Image<K, V>, p: nat)
    requires Inv(m) && p < |m.order|
    ensures Readable(m) && m.links.Detachable(m.order[p])
    ensures var m' := Dropped(m, p, Items(m)[p].key);
            Inv(m') && Readable(m') && Items(m') == Items(m)[..p] + Items(m)[p + 1..]
  {
    hide Partitioned, SameItems, NoDup, Indexed;
    InvReadable(m);
    var k := Items(m)[p].key;
    DroppedLinked(m, p, k);
    hide Linked;
    var m' := Dropped(m, p, k);
    DroppedSame(m, p, k);
    DroppedIndexed(m, p, k);
    FreedPartition(m.links.entries, m.links.Detached(m.order[p]).entries, m.free, m.order, p);
    InvReadable(m');
    ItemsWithout(m, m', p);
  }

  /** The image after position `p` has been detached, its data replaced, and attached at the front. */
  function Moved<K, V>(m: Image<K, V>, p: nat, v: V, expiresAt: int): Image<K, V>
    requires p < |m.order| && m.links.Detachable(m.order[p])
    requires var l := m.links.Detached(m.order[p]); l.Occupied(m.order[p]) && (l.head != NULL ==> l.Occupied(l.head))
  {
    var s := m.order[p];
    var l := m.links.Detached(s);
    var l' := l.(entries := l.entries[s := Some(l.entries[s].value.(value := v, expiresAt := expiresAt))]);
    m.(links := l'.Attached(s), order := [s] + Cut(m.order, p))
  }

  lemma MovedLinked<V>(links: Links<V>, order: seq<nat>, p: nat, v: V, expiresAt: int)
    requires Linked(links, order) && p < |order|
    ensures links.Detachable(order[p])
    ensures var s, l := order[p], links.Detached(order[p]);
            && l.Occupied(s) && (l.head != NULL ==> l.Occupied(l.head))
            && var l' := l.(entries := l.entries[s := Some(l.entries[s].value.(value := v, expiresAt := expiresAt))]).Attached(s);
               && Linked(l', [s] + Cut(order, p))
               && SameData(l'.entries, links.entries[s := Some(l.entries[s].value.(value := v, expiresAt := expiresAt))])
  {
    var s := order[p];
    assert LinkedAt(links, order, p);
    DetachedLinked(links, order, p);
    CutMembers(order, p);
    var l := links.Detached(s);
    var l' := l.(entries := l.entries[s := Some(l.entries[s].value.(value := v, expiresAt := expiresAt))]);
    LinkedFrame(l, l', Cut(order, p));
    AttachedLinked(l', Cut(order, p), s);
  }

  lemma MovedPartition<K, V>(m: Image<K, V>, m': Image<K, V>, p: nat)
    requires Partitioned(m.links.entries, m.free, m.order) && NoDup(m.order) && p < |m.order|
    requires m'.free == m.free && m'.order == [m.order[p]] + Cut(m.order, p) && |m'.links.entries| == |m.links.entries|
    requires forall s :: 0 <= s < |m.links.entries| ==> m'.links.entries[s].Some? == m.links.entries[s].Some?
    ensures Partitioned(m'.links.entries, m'.free, m'.order)
  {
    CutMembers(m.order, p);
  }

  /** `m'` lists the slots of `m` with position `p` moved to the front. */
  lemma ItemsMoved<K, V>(m: Image<K, V>, m': Image<K, V>, p: nat, x: Item<K, V>)
    requires Readable(m) && Readable(m') && p < |m.order| && m'.order == [m.order[p]] + Cut(m.order, p)
    requires SameItems(m, m', Cut(m.order, p)) && Items(m')[0] == x
    ensures Items(m') == [x] + (Items(m)[..p] + Items(m)[p + 1..])
  {
    forall i | 0 < i < |m'.order| ensures Items(m')[i] == Items(m)[if i <= p then i - 1 else i] {
      assert Cut(m.order, p)[i - 1] in Cut(m.order, p);
      assert m'.order[i] == Cut(m.order, p)[i - 1] == m.order[if i <= p then i - 1 else i];
    }
    var c, c' := Items(m), Items(m');
    assert c' == [x] + (c[..p] + c[p + 1..]) by {
      hide *;
      assert |c'| == |c|;
    }
  }

  lemma MovedIndexed<K, V>(m: Image<K, V>, p: nat, v: V, expiresAt: int)
    requires Indexed(m) && p < |m.order| && m.links.Detachable(m.order[p])
    requires var l := m.links.Detached(m.order[p]); l.Occupied(m.order[p]) && (l.head != NULL ==> l.Occupied(l.head))
    ensures Indexed(Moved(m, p, v, expiresAt))
  {
  }

  lemma LinkedDistinct<V>(links: Links<V>, order: seq<nat>)
    requires Linked(links, order)
    ensures NoDup(order)
  {
  }

  lemma MovedSame<K, V>(m: Image<K, V>, p: nat, v: V, expiresAt: int)
    requires Linked(m.links, m.order) && Readable(m) && p < |m.order| && m.links.Detachable(m.order[p])
    requires var l := m.links.Detached(m.order[p]); l.Occupied(m.order[p]) && (l.head != NULL ==> l.Occupied(l.head))
    ensures SameItems(m, Moved(m, p, v, expiresAt), Cut(m.order, p))
  {
    hide Linked;
    LinkedDistinct(m.links, m.order);
    MovedLinked(m.links, m.order, p, v, expiresAt);
    CutMembers(m.order, p);
  }

  lemma MovedMaps<K, V>(m: Image<K, V>, p: nat, v: V, expiresAt: int)
    requires Linked(m.links, m.order) && Indexed(m) && p < |m.order|
    ensures m.links.Detachable(m.order[p])
    ensures var l := m.links.Detached(m.order[p]); l.Occupied(m.order[p]) && (l.head != NULL ==> l.Occupied(l.head))
    ensures var m' := Moved(m, p, v, expiresAt);
            && Linked(m'.links, m'.order) && Indexed(m') && Readable(m) && SameItems(m, m', Cut(m.order, p))
            && |m'.links.entries| == |m.links.entries|
            && forall s :: 0 <= s < |m.links.entries| ==> m'.links.entries[s].Some? == m.links.entries[s].Some?
    ensures var m' := Moved(m, p, v, expiresAt); var s := m.order[p];
            m'.links.Occupied(s) && m'.links.entries[s].value.value == v && m'.links.entries[s].value.expiresAt == expiresAt
  {
    hide Linked, Indexed, SameItems;
    InvReadable(m);
    MovedLinked(m.links, m.order, p, v, expiresAt);
    MovedIndexed(m, p, v, expiresAt);
    MovedSame(m, p, v, expiresAt);
    hide Readable;
  }

  lemma MovedInv<K, V>(m: Image<K, V>, p: nat, v: V, expiresAt: int)
    requires Inv(m) && p < |m.order|
    ensures Readable(m) && m.links.Detachable(m.order[p])
    ensures var l := m.links.Detached(m.order[p]); l.Occupied(m.order[p]) && (l.head != NULL ==> l.Occupied(l.head))
    ensures var m' := Moved(m, p, v, expiresAt);
            Inv(m') && Readable(m') && Items(m') == [Item(Items(m)[p].key, v, expiresAt)] + (Items(m)[..p] + Items(m)[p + 1..])
  {
    InvReadable(m);
    MovedMaps(m, p, v, expiresAt);
    var m' := Moved(m, p, v, expiresAt);
    assert m'.order[0] == m.order[p];
    hide Indexed, Partitioned, SameItems;
    MovedPartition(m, m', p);
    InvReadable(m');
    ItemsMoved(m, m', p, Item(Items(m)[p].key, v, expiresAt));
  }

  function NextSlot<K, V>(m: Image<K, V>): nat {
    if m.free != [] then m.free[|m.free| - 1] else |m.reverse|
  }

  /** A new key has taken the slot on top of the free stack, or a fresh slot, but is not linked yet. */
  function Allocated<K, V>(m: Image<K, V>, k: K, v: V, expiresAt: int): Image<K, V>
    requires |m.reverse| == |m.links.entries| && (m.free != [] ==> NextSlot(m) < |m.reverse|)
  {
    var s, e := NextSlot(m), Some(Slot(v, expiresAt, NULL, NULL));
    if m.free != [] then
      Image(m.index[k := s], m.reverse[s := Some(k)], m.links.(entries := m.links.entries[s := e]), m.free[..|m.free| - 1], m.order)
    else
      Image(m.index[k := s], m.reverse + [Some(k)], m.links.(entries := m.links.entries + [e]), [], m.order)
  }

  function Added<K, V>(m: Image<K, V>, k: K, v: V, expiresAt: int): Image<K, V>
    requires |m.reverse| == |m.links.entries| && (m.free != [] ==> NextSlot(m) < |m.reverse|)
    requires m.links.head != NULL ==> m.links.Occupied(m.links.head)
  {
    var a := Allocated(m, k, v, expiresAt);
    a.(links := a.links.Attached(NextSlot(m)), order := [NextSlot(m)] + m.order)
  }

  /** `m'` has one slot more in use than `m`: key `k` in slot `s`. Links and order aside, nothing else differs. */
  ghost predicate OneMore<K, V>(m: Image<K, V>, m': Image<K, V>, k: K, s: nat, v: V, expiresAt: int) {
    && m'.index == m.index[k := s] && s !in m.order && |m.links.entries| == |m.reverse|
    && |m'.reverse| == |m'.links.entries| == (if s < |m.reverse| then |m.reverse| else s + 1) && s <= |m.reverse|
    && (s < |m.reverse| ==> m.reverse[s].None?) && m'.reverse[s] == Some(k)
    && m'.links.entries[s].Some? && m'.links.entries[s].value.value == v && m'.links.entries[s].value.expiresAt == expiresAt
    && (forall x :: 0 <= x < |m.reverse| && x != s ==> m'.reverse[x] == m.reverse[x])
    && (forall x :: 0 <= x < |m.reverse| && x != s ==> m'.links.entries[x].Some? == m.links.entries[x].Some?)
    && (forall x :: 0 <= x < |m.reverse| && x != s && m.links.entries[x].Some? ==>
          && m'.links.entries[x].value.value == m.links.entries[x].value.value
          && m'.links.entries[x].value.expiresAt == m.links.entries[x].value.expiresAt)
  }

  lemma NextSlotUnused<K, V>(m: Image<K, V>)
    requires Inv(m)
    ensures NextSlot(m) !in m.order && NextSlot(m) <= |m.reverse|
    ensures m.free != [] ==> NextSlot(m) < |m.reverse| && m.reverse[NextSlot(m)].None?
    ensures m.links.head != NULL ==> m.links.Occupied(m.links.head)
  {
    assert m.order != [] ==> LinkedAt(m.links, m.order, 0);
    forall i | 0 <= i < |m.order| ensures m.order[i] != NextSlot(m) {
      assert LinkedAt(m.links, m.order, i);
    }
  }

  lemma AllocatedIsOneMore<K, V>(m: Image<K, V>, k: K, v: V, expiresAt: int)
    requires NextSlot(m) !in m.order && NextSlot(m) <= |m.reverse| == |m.links.entries|
    requires m.free != [] ==> NextSlot(m) < |m.reverse| && m.reverse[NextSlot(m)].None?
    ensures OneMore(m, Allocated(m, k, v, expiresAt), k, NextSlot(m), v, expiresAt)
  {
  }

  lemma AllocatedLinked<K, V>(m: Image<K, V>, k: K, v: V, expiresAt: int)
    requires Linked(m.links, m.order) && (m.free != [] || |m.reverse| < NULL) && |m.reverse| == |m.links.entries|
    requires NextSlot(m) !in m.order && (m.free != [] ==> NextSlot(m) < |m.reverse|)
    ensures Linked(Allocated(m, k, v, expiresAt).links, m.order)
  {
    LinkedFrame(m.links, Allocated(m, k, v, expiresAt).links, m.order);
  }

  lemma OneMoreRelinked<K, V>(m: Image<K, V>, a: Image<K, V>, a': Image<K, V>, k: K, s: nat, v: V, expiresAt: int)
    requires OneMore(m, a, k, s, v, expiresAt) && a'.index == a.index && a'.reverse == a.reverse
    requires SameData(a'.links.entries, a.links.entries)
    ensures OneMore(m, a', k, s, v, expiresAt)
  {
  }

  lemma AddedPartition<V>(entries: Slots<V>, entries': Slots<V>, free: seq<nat>, order: seq<nat>, s: nat)
    requires Partitioned(entries, free, order) && s < |entries'|
    requires if free != [] then s == free[|free| - 1] && |entries'| == |entries| else s == |entries| && |entries'| == |entries| + 1
    requires entries'[s].Some? && forall x :: 0 <= x < |entries| && x != s ==> entries'[x].Some? == entries[x].Some?
    ensures Partitioned(entries', if free != [] then free[..|free| - 1] else [], [s] + order)
  {
    var free' := if free != [] then free[..|free| - 1] else [];
    assert forall x :: x in [s] + order <==> x == s || x in order;
    forall x | 0 <= x < |entries'| && entries'[x].None? ensures x in free' {
      assert x in free;
      assert free == free' + [s];
    }
  }

  lemma ItemsAdded<K, V>(m: Image<K, V>, m': Image<K, V>, s: nat)
    requires Readable(m) && Readable(m') && m'.order == [s] + m.order && SameItems(m, m', m.order)
    ensures Items(m') == [ItemIn(m', m'.order[0])] + Items(m)
  {
    forall i | 0 < i < |m'.order| ensures Items(m')[i] == Items(m)[i - 1] {
      assert m'.order[i] == m.order[i - 1] && m.order[i - 1] in m.order;
    }
  }

  lemma OneMoreIndexed<K, V>(m: Image<K, V>, m': Image<K, V>, k: K, s: nat, v: V, expiresAt: int)
    requires Indexed(m) && k !in m.index && OneMore(m, m', k, s, v, expiresAt)
    ensures Indexed(m')
  {
  }

  lemma OneMoreItems<K, V>(m: Image<K, V>, m': Image<K, V>, k: K, s: nat, v: V, expiresAt: int)
    requires Readable(m) && Readable(m') && OneMore(m, m', k, s, v, expiresAt) && m'.order == [s] + m.order
    ensures Items(m') == [Item(k, v, expiresAt)] + Items(m)
  {
    assert SameItems(m, m', m.order) by {
      forall x | x in m.order ensures x < |m.reverse| && x != s && m.links.Occupied(x) && m.reverse[x].Some? {
      }
    }
    ItemsAdded(m, m', s);
    assert m'.order[0] == s;
  }

  lemma AddedInv<K, V>(m: Image<K, V>, k: K, v: V, expiresAt: int)
    requires Inv(m) && k !in m.index && (m.free != [] || |m.reverse| < NULL)
    ensures m.links.head != NULL ==> m.links.Occupied(m.links.head)
    ensures m.free != [] ==> NextSlot(m) < |m.reverse|
    ensures var m' := Added(m, k, v, expiresAt);
            Readable(m) && Inv(m') && Readable(m') && Items(m') == [Item(k, v, expiresAt)] + Items(m)
  {
    hide Linked, Partitioned, NoDup, Readable, SameData, SameItems;
    NextSlotUnused(m);
    var s := NextSlot(m);
    AllocatedIsOneMore(m, k, v, expiresAt);
    AllocatedLinked(m, k, v, expiresAt);
    var a, m' := Allocated(m, k, v, expiresAt), Added(m, k, v, expiresAt);
    AttachedLinked(a.links, m.order, s);
    OneMoreRelinked(m, a, m', k, s, v, expiresAt);
    assert |m'.index| == |m'.order|;
    AddedPartition(m.links.entries, m'.links.entries, m.free, m.order, s);
    hide OneMore, Indexed;
    OneMoreIndexed(m, m', k, s, v, expiresAt);
    InvReadable(m);
    InvReadable(m');
    OneMoreItems(m, m', k, s, v, expiresAt);
  }

  class LRU<K(==), V> {
    var index: map<K, nat>
    var reverse: seq<Option<K>>
    var entries: Slots<V>
    var free: seq<nat>
    var head: nat
    var tail: nat
    const ttl: nat
    const cap: nat
    ghost var order: seq<nat>

    ghost function Img(): Image<K, V>
      reads this
    {
      Image(index, reverse, Links(entries, head, tail), free, order)
    }

    ghost predicate Valid()
      reads this
    {
      Inv(Img()) && cap <= NULL && (cap >= 1 ==> |entries| <= cap)
    }

    ghost function Contents(): (c: Cache<K, V>)
      requires Valid()
      reads this
      ensures |c| == |order| == |index|
    {
      InvReadable(Img());
      Items(Img())
    }

    /** The key map finds an item exactly when it is in the list, and at its own position. */
    lemma Located(k: K) returns (p: nat)
      requires Valid()
      ensures DistinctKeys(Contents())
      ensures p == Pos(Contents(), k)
      ensures Has(Contents(), k) <==> k in index
      ensures k in index ==> p < |order| && order[p] == index[k]
    {
      InvReadable(Img());
      ItemsDistinct(Img());
      if k in index {
        assert index[k] in order;
        p :| 0 <= p < |order| && order[p] == index[k];
        PosIs(Contents(), k, p);
      } else {
        AbsentHasNoPos(Contents(), k);
        p := |order|;
      }
    }

    /** What `Valid` says of the slot at position `p`. */
    lemma SlotAt(p: nat)
      requires Valid() && p < |order|
      ensures order[p] < |entries| == |reverse| && entries[order[p]].Some? && reverse[order[p]].Some?
      ensures Contents()[p] == Item(reverse[order[p]].value, entries[order[p]].value.value, entries[order[p]].value.expiresAt)
    {
      InvReadable(Img());
    }

    /** What `Valid` says of the sizes. */
    lemma Sizes()
      requires Valid()
      ensures |entries| == |reverse| == |order| + |free| && |entries| <= NULL && |order| == |index|
      ensures order == [] <==> tail == NULL
      ensures order != [] ==> tail == order[|order| - 1]
    {
      assert order != [] ==> LinkedAt(Img().links, order, |order| - 1);
    }

    constructor (cap: nat, ttl: nat)
      requires cap <= NULL
      ensures Valid() && Contents() == [] && this.cap == cap && this.ttl == ttl
    {
      index, reverse, entries, free := map[], [], [], [];
      head, tail := NULL, NULL;
      this.ttl, this.cap := ttl, cap;
      order := [];
    }

    method AllocSlot(key: K, entry: Slot<V>) returns (idx: nat)
      requires |reverse| == |entries| && (free != [] ==> free[|free| - 1] < |entries|)
      modifies this`entries, this`reverse, this`free
      ensures old(free) != [] ==>
                && idx == old(free)[|old(free)| - 1] && free == old(free)[..|old(free)| - 1]
                && entries == old(entries)[idx := Some(entry)] && reverse == old(reverse)[idx := Some(key)]
      ensures old(free) == [] ==>
                && idx == |old(entries)| && free == []
                && entries == old(entries) + [Some(entry)] && reverse == old(reverse) + [Some(key)]
    {
      if |free| > 0 {
        idx := free[|free| - 1];
        free := free[..|free| - 1];
        entries := entries[idx := Some(entry)];
        reverse := reverse[idx := Some(key)];
      } else {
        entries := entries + [Some(entry)];
        reverse := reverse + [Some(key)];
        idx := |entries| - 1;
      }
    }

    method Detach(idx: nat)
      requires Links(entries, head, tail).Detachable(idx)
      modifies this`entries, this`head, this`tail
      ensures Links(entries, head, tail) == old(Links(entries, head, tail).Detached(idx))
    {
      var prev, next := entries[idx].value.prev, entries[idx].value.next;
      if prev != NULL {
        entries := entries[prev := Some(entries[prev].value.(next := next))];
      } else {
        head := next;
      }
      if next != NULL {
        entries := entries[next := Some(entries[next].value.(prev := prev))];
      } else {
        tail := prev;
      }
    }

    method AttachFront(idx: nat)
      requires Links(entries, head, tail).Occupied(idx)
      requires head != NULL ==> Links(entries, head, tail).Occupied(head)
      modifies this`entries, this`head, this`tail
      ensures Links(entries, head, tail) == old(Links(entries, head, tail).Attached(idx))
    {
      entries := entries[idx := Some(entries[idx].value.(prev := NULL, next := head))];
      if head != NULL {
        entries := entries[head := Some(entries[head].value.(prev := idx))];
      } else {
        tail := idx;
      }
      head := idx;
    }

    method Insert(key: K, value: V, now: int)
      requires Valid() && (cap == 0 ==> |entries| < NULL)
      modifies this
      ensures Valid()
      ensures Contents() == LruSpec.Insert(old(Contents()), cap, key, value, now + ttl)
    {
      hide Inv, Items, Readable, DistinctKeys, LruSpec.Insert, Pos;
      var expiresAt := now + ttl;
      ghost var p := Located(key);
      InsertCases(Contents(), cap, key, value, expiresAt);
      if key in index {
        var idx := index[key];
        Overwrite(idx, value, expiresAt, p);
        return;
      }
      Sizes();
      if |index| == cap {
        var evict := tail;
        if evict != NULL {
          Evict(evict);
        }
      }
      InsertNew(key, value, expiresAt);
    }

    /** `Insert` on a key that is already present. */
    method Overwrite(idx: nat, value: V, expiresAt: int, ghost p: nat)
      requires Valid() && p < |order| && order[p] == idx
      modifies this
      ensures Valid()
      ensures Contents() == [Item(old(Contents())[p].key, value, expiresAt)] + (old(Contents())[..p] + old(Contents())[p + 1..])
    {
      hide Inv, Items, Readable, DistinctKeys;
      MovedInv(Img(), p, value, expiresAt);
      Detach(idx);
      entries := entries[idx := Some(Slot(value, expiresAt, NULL, NULL))];
      AttachFront(idx);
      order := [idx] + Cut(order, p);
      assert Img() == Moved(old(Img()), p, value, expiresAt);
    }

    /** The eviction step of `Insert`. */
    method Evict(evict: nat)
      requires Valid() && evict == tail != NULL
      modifies this
      ensures Valid() && index.Keys <= old(index.Keys) && |entries| == old(|entries|)
      ensures Contents() == old(Contents())[..|old(Contents())| - 1]
    {
      hide Inv, Items, Readable, DistinctKeys;
      Sizes();
      ghost var p := |order| - 1;
      SlotAt(p);
      DroppedInv(Img(), p);
      Detach(evict);
      if reverse[evict].Some? {
        var oldKey := reverse[evict].value;
        index := index - {oldKey};
      }
      entries := entries[evict := None];
      reverse := reverse[evict := None];
      free := free + [evict];
      order := Cut(order, p);
      assert Img() == Dropped(old(Img()), p, old(Contents())[p].key);
    }

    /** The last step of `Insert`: a new key enters at the front. */
    method InsertNew(key: K, value: V, expiresAt: int)
      requires Valid() && key !in index && |order| < NULL
      requires cap >= 1 ==> |index| < cap
      modifies this
      ensures Valid()
      ensures Contents() == [Item(key, value, expiresAt)] + old(Contents())
    {
      hide Inv, Items, Readable, DistinctKeys;
      Sizes();
      AddedInv(Img(), key, value, expiresAt);
      var idx := AllocSlot(key, Slot(value, expiresAt, NULL, NULL));
      index := index[key := idx];
      AttachFront(idx);
      order := [idx] + order;
      assert Img() == Added(old(Img()), key, value, expiresAt);
    }

    method Get(key: K, now: int) returns (r: Option<V>)
      requires Valid()
      modifies this
      ensures Valid()
      ensures r == GetResult(old(Contents()), key, now)
      ensures Contents() == AfterGet(old(Contents()), key, now)
    {
      hide Inv, Items, Readable, DistinctKeys;
      ghost var p := Located(key);
      if key !in index {
        return None;
      }
      var idx := index[key];
      SlotAt(p);
      var expired := entries[idx].value.expiresAt < now;
      if expired {
        var _ := Remove(key);
        return None;
      }
      r := MoveToFront(idx, p);
    }

    /** A hit: the slot is detached and attached again at the front. */
    method MoveToFront(idx: nat, ghost p: nat) returns (r: Option<V>)
      requires Valid() && p < |order| && order[p] == idx
      modifies this
      ensures Valid() && r == Some(old(Contents())[p].value)
      ensures Contents() == [old(Contents())[p]] + (old(Contents())[..p] + old(Contents())[p + 1..])
    {
      hide Inv, Items, Readable, DistinctKeys;
      SlotAt(p);
      MovedInv(Img(), p, entries[idx].value.value, entries[idx].value.expiresAt);
      Detach(idx);
      AttachFront(idx);
      r := Some(entries[idx].value.value);
      order := [idx] + Cut(order, p);
      assert Img() == Moved(old(Img()), p, old(entries)[idx].value.value, old(entries)[idx].value.expiresAt);
    }

    method Remove(key: K) returns (r: Option<V>)
      requires Valid()
      modifies this
      ensures Valid() && |entries| == old(|entries|)
      ensures Contents() == Without(old(Contents()), key)
      ensures r == if Has(old(Contents()), key) then Some(Find(old(Contents()), key).value) else None
    {
      hide Inv, Items, Readable, DistinctKeys;
      ghost var p := Located(key);
      if key !in index {
        return None;
      }
      SlotAt(p);
      DroppedInv(Img(), p);
      var idx := index[key];
      index := index - {key};
      Detach(idx);
      reverse := reverse[idx := None];
      r := Some(entries[idx].value.value);
      entries := entries[idx := None];
      free := free + [idx];
      order := Cut(order, p);
      assert Img() == Dropped(old(Img()), p, key);
    }
  }
}
