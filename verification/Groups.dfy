/** The group manager as it is built: each named group owns a segmented log and an LRU cache in front of it. */
module Groups {
  import opened Bytes
  import opened LogSpec
  import G = GroupSpec
  import M = ManagerSpec
  import SegLog
  import Lru

  class Group {
    const name: string
    const hash: G.Hash
    const log: SegLog.SegLog
    const lru: Lru.LRU<nat, G.LogEntry>
    /** What the group's state lives in. */
    ghost var Repr: set<object>

    ghost predicate Valid()
      reads this, Repr
    {
      && this in Repr && log in Repr && lru in Repr
      && (forall i :: 0 <= i < |log.segs| ==> log.segs[i] in Repr)
      && log.Valid() && lru.Valid() && lru.cap == G.CACHE_CAP && lru.ttl == G.CACHE_TTL
    }

    ghost function View(): G.Group
      requires Valid()
      reads this, Repr
    {
      G.Group(log.View(), lru.Contents())
    }

    constructor (name: string, hash: G.Hash)
      ensures this.name == name && this.hash == hash
      ensures Valid() && View() == G.NEW_GROUP && fresh(Repr) && this in Repr
    {
      hide SegLog.SegLog.Valid, SegLog.SegLog.View, Lru.LRU.Valid, Lru.LRU.Contents;
      this.name, this.hash := name, hash;
      log := new SegLog.SegLog();
      lru := new Lru.LRU(G.CACHE_CAP, G.CACHE_TTL);
      new;
      assert fresh(log.Segments());
      Repr := {this, log, lru} + log.Segments();
    }

    method CachePut(id: nat, timestamp: u64, payload: bytes, now: int)
      requires Valid()
      modifies lru
      ensures Valid() && Repr == old(Repr)
      ensures View() == old(View()).(cache := G.L.Insert(old(View()).cache, G.CACHE_CAP, hash(name, id),
                                     G.LogEntry(id, timestamp, |payload|, payload), now + G.CACHE_TTL))
    {
      hide SegLog.Inv, Lru.Inv, Lru.Items, NoDup;
      var entry := G.LogEntry(id, timestamp, |payload|, payload);
      lru.Insert(hash(name, id), entry, now);
    }

    method CacheInvalidate(id: nat)
      requires Valid()
      modifies lru
      ensures Valid() && Repr == old(Repr)
      ensures View() == old(View()).(cache := G.L.Without(old(View()).cache, hash(name, id)))
    {
      hide SegLog.Inv, Lru.Inv, Lru.Items, NoDup;
      var _ := lru.Remove(hash(name, id));
    }

    method Add(r: Record, alloc: Allocator, now: int) returns (o: Appended)
      requires Valid()
      modifies Repr
      ensures Valid() && fresh(Repr - old(Repr)) && this in Repr
      ensures View() == G.Add(hash, name, old(View()), r, alloc, now)
      ensures o == Outcome(old(View()).log, r.payload, alloc)
    {
      hide SegLog.Inv, Lru.Inv, Lru.Items, NoDup;
      o := log.Append(r.timestamp, r.payload, alloc);
      Repr := Repr + log.Segments();
      if o.Id? {
        CachePut(o.id, r.timestamp, r.payload, now);
      }
    }

    /** Adds in turn and stops at the first refusal, leaving the earlier records in. */
    method AddRange(rs: seq<Record>, alloc: Allocator, clock: nat -> int)
      returns (refusal: Option<Appended>, firstId: nat, lastId: nat)
      requires Valid()
      modifies Repr
      ensures Valid() && fresh(Repr - old(Repr)) && this in Repr
      ensures View() == G.AddAll(hash, name, old(View()), rs, alloc, clock)
      ensures refusal == M.FirstRefusal(old(View()).log, rs, alloc)
      ensures refusal.None? && rs != [] ==> firstId == old(View()).log.NextId() && lastId == firstId + |rs| - 1
    {
      hide SegLog.Inv, Lru.Inv, Lru.Items, NoDup;
      hide G.AddAll, M.FirstRefusal, G.Add, Outcome;
      ghost var state, reply := G.AddAll(hash, name, View(), rs, alloc, clock), M.FirstRefusal(View().log, rs, alloc);
      assert rs[0..] == rs;
      ghost var next := View().log.NextId();
      firstId, lastId := 0, 0;
      var i := 0;
      while i < |rs|
        invariant i <= |rs| && Valid() && fresh(Repr - old(Repr))
        invariant View().log.NextId() == next + i
        invariant i > 0 ==> firstId == next && lastId == next + i - 1
        invariant G.AddAll(hash, name, View(), rs[i..], alloc, clock) == state
        invariant M.FirstRefusal(View().log, rs[i..], alloc) == reply
      {
        M.AddAllStep(hash, name, View(), rs[i..], alloc, clock);
        assert rs[i..][1..] == rs[i + 1..];
        var o := Add(rs[i], alloc, clock(|rs| - i));
        if !o.Id? {
          return Some(o), firstId, lastId;
        }
        firstId, lastId := if i == 0 then o.id else firstId, o.id;
        i := i + 1;
      }
      assert rs[i..] == [];
      M.AddAllNone(hash, name, View(), alloc, clock);
      return None, firstId, lastId;
    }

    /** One lookup in the cache. */
    method LookUp(id: nat, now: int) returns (r: Option<G.LogEntry>)
      requires Valid()
      modifies lru
      ensures Valid() && Repr == old(Repr) && View() == G.AfterLookUp(hash, name, old(View()), id, now)
      ensures r == G.LookUp(hash, name, old(View()), id, now)
    {
      hide SegLog.Inv, Lru.Inv, Lru.Items, NoDup;
      r := lru.Get(hash(name, id), now);
    }

    method Read(id: nat, now: int) returns (r: Result<Entry, LogError>)
      requires Valid()
      modifies lru
      ensures Valid() && Repr == old(Repr) && View() == G.AfterLookUp(hash, name, old(View()), id, now)
      ensures r == G.ReadReply(hash, name, old(View()), id, now)
    {
      hide SegLog.Inv, Lru.Inv, Lru.Items, NoDup;
      var cached := LookUp(id, now);
      if cached.Some? {
        return Ok(G.Uncached(cached.value));
      }
      r := log.Read(id);
    }

    /** Serves the range from the cache when every id hits, and from the log otherwise. */
    method ReadRange(start: nat, end: nat, clock: nat -> int) returns (r: seq<Entry>)
      requires Valid() && start <= end
      modifies lru
      ensures Valid() && Repr == old(Repr) && View() == G.AfterLookUps(hash, name, old(View()), start, end + 1, clock)
      ensures r == G.ReadRangeReply(hash, name, old(View()), start, end, clock)
    {
      hide SegLog.Inv, Lru.Inv, Lru.Items, NoDup, G.AllHits, G.AfterLookUps, LogSpec.ReadRange;
      M.LookUpsKeepLog(hash, name, View(), start, end + 1, clock);
      var rangeLen := end - start + 1;
      var cached, allCached := LookUpRange(start, end, clock);
      if allCached && |cached| == rangeLen {
        return cached;
      }
      r := log.ReadRange(start, end);
    }

    /** The loop of `ReadRange`: looks ids up until the first miss. */
    method LookUpRange(start: nat, end: nat, clock: nat -> int) returns (cached: seq<Entry>, allCached: bool)
      requires Valid() && start <= end
      modifies lru
      ensures Valid() && Repr == old(Repr) && View() == G.AfterLookUps(hash, name, old(View()), start, end + 1, clock)
      ensures var hits := G.AllHits(hash, name, old(View()), start, end + 1, clock);
              if allCached then hits == Some(cached) && |cached| == end - start + 1 else hits == None
    {
      hide SegLog.Inv, Lru.Inv, Lru.Items, NoDup;
      hide G.AllHits, G.AfterLookUps, G.LookUp, G.AfterLookUp, G.Uncached;
      hide Lru.LRU.Contents, SegLog.SegLog.View, SegLog.SegLog.Valid, Lru.LRU.Valid;
      ghost var state := G.AfterLookUps(hash, name, View(), start, end + 1, clock);
      ghost var hits := G.AllHits(hash, name, View(), start, end + 1, clock);
      M.PrefixedNone(hits);
      cached, allCached := [], true;
      var id := start;
      while id <= end && allCached
        invariant start <= id <= end + 1 && Valid()
        invariant allCached ==> |cached| == id - start
        invariant allCached ==> G.AfterLookUps(hash, name, View(), id, end + 1, clock) == state
        invariant allCached ==> hits == M.Prefixed(cached, G.AllHits(hash, name, View(), id, end + 1, clock))
        invariant !allCached ==> View() == state && hits.None?
        decreases end + 1 - id, allCached
      {
        M.LookUpsStep(hash, name, View(), id, end + 1, clock, cached);
        var entry := LookUp(id, clock(id));
        if entry.Some? {
          cached := cached + [G.Uncached(entry.value)];
          id := id + 1;
        } else {
          allCached := false;
        }
      }
      M.LookUpsNone(hash, name, View(), end + 1, clock);
      assert cached + [] == cached;
    }

    /** Trims the log and drops what was cached for the trimmed ids. */
    method Remove(upTo: nat)
      requires Valid()
      modifies Repr
      ensures Valid() && Repr == old(Repr) && this in Repr
      ensures View() == G.Remove(hash, name, old(View()), upTo)
    {
      hide SegLog.Inv, Lru.Inv, Lru.Items, NoDup;
      hide Trim, Excess, Ids;
      var removed := log.Trim(upTo);
      InvalidateAll(removed);
    }

    lemma OwnsCache()
      requires Valid()
      ensures lru in Repr
    {
    }

    method Stats() returns (r: M.Reply)
      requires Valid()
      ensures var s := View().log; r == M.Counts(|s.live|, s.segments, s.NextId())
    {
      return M.Counts(log.entryCount, |log.segs|, log.nextId);
    }

    /** The loop that invalidates the trimmed ids one by one. */
    method InvalidateAll(removed: seq<nat>)
      requires Valid()
      modifies lru
      ensures Valid() && Repr == old(Repr) && View() == old(View()).(cache := G.Invalidated(hash, name, old(View()).cache, removed))
    {
      hide SegLog.Inv, Lru.Inv, Lru.Items, NoDup, G.L.Without;
      ghost var cache := G.Invalidated(hash, name, View().cache, removed);
      assert removed[0..] == removed;
      for i := 0 to |removed|
        invariant Valid() && View().log == old(View()).log
        invariant G.Invalidated(hash, name, View().cache, removed[i..]) == cache
      {
        assert removed[i..][0] == removed[i] && removed[i..][1..] == removed[i + 1..];
        CacheInvalidate(removed[i]);
      }
    }
  }

  class GroupManager {
    var groups: map<string, Group>
    const hash: G.Hash
    /** Everything the groups' state lives in. */
    ghost var Repr: set<object>

    ghost predicate Valid()
      reads this, Repr
    {
      && this !in Repr
      && (forall n :: n in groups ==> groups[n].name == n && groups[n].hash == hash)
      && (forall n :: n in groups ==>
            groups[n] in Repr && groups[n] in groups[n].Repr && groups[n].Repr <= Repr && groups[n].Valid())
      && (forall n, n' :: n in groups && n' in groups && n != n' ==> groups[n].Repr !! groups[n'].Repr)
    }

    ghost function View(): M.Groups
      requires Valid()
      reads this, Repr
    {
      map n | n in groups :: groups[n].View()
    }

    constructor (hash: G.Hash)
      ensures Valid() && View() == map[] && this.hash == hash && fresh(Repr)
    {
      groups, this.hash, Repr := map[], hash, {};
    }

    /** A change confined to one group leaves every other group as it was. */
    twostate lemma OneChanged(name: string)
      requires old(Valid()) && groups == old(groups) && name in groups && this !in Repr
      requires groups[name].Valid() && groups[name] in groups[name].Repr && Repr == old(Repr) + groups[name].Repr
      requires fresh(groups[name].Repr - old(groups[name].Repr))
      requires forall o :: o in old(Repr) && o !in old(groups[name].Repr) ==> unchanged(o)
      ensures Valid() && View() == old(View())[name := groups[name].View()]
    {
      hide Group.Valid, Group.View;
    }

    /** A fresh group joins the others. */
    twostate lemma OneAdded(name: string, new g: Group)
      requires old(Valid()) && name !in old(groups) && groups == old(groups)[name := g] && this !in Repr
      requires g.Valid() && g in g.Repr && fresh(g.Repr) && Repr == old(Repr) + g.Repr && g.name == name && g.hash == hash
      requires forall o :: o in old(Repr) ==> unchanged(o)
      ensures Valid() && View() == old(View())[name := g.View()]
    {
      hide Group.Valid, Group.View;
    }

    method CreateGroup(name: string) returns (r: M.Reply)
      requires Valid()
      modifies this
      ensures Valid() && fresh(Repr - old(Repr))
      ensures View() == M.Step(hash, old(View()), M.Create(name))
      ensures r == M.ReplyTo(hash, old(View()), M.Create(name))
    {
      hide Group.Valid, Group.View;
      if name in groups {
        return M.Refused(G.GroupAlreadyExists);
      }
      var g := new Group(name, hash);
      groups := groups[name := g];
      Repr := Repr + g.Repr;
      OneAdded(name, g);
      return M.Done;
    }

    method DropGroup(name: string) returns (r: M.Reply)
      requires Valid()
      modifies this
      ensures Valid() && Repr == old(Repr)
      ensures View() == M.Step(hash, old(View()), M.Drop(name))
      ensures r == M.ReplyTo(hash, old(View()), M.Drop(name))
    {
      hide Group.Valid, Group.View;
      if name !in groups {
        return M.Refused(G.GroupNotFound);
      }
      groups := groups - {name};
      return M.Done;
    }

    method Add(name: string, rec: Record, alloc: Allocator, now: int) returns (r: M.Reply)
      requires Valid()
      modifies this, Repr
      ensures Valid() && fresh(Repr - old(Repr))
      ensures View() == M.Step(hash, old(View()), M.Add(name, rec, alloc, now))
      ensures r == M.ReplyTo(hash, old(View()), M.Add(name, rec, alloc, now))
    {
      hide Group.Valid, Group.View, G.Add, Outcome, Append, M.Step, M.ReplyTo;
      M.AddStep(hash, View(), name, rec, alloc, now);
      if name !in groups {
        return M.Refused(G.GroupNotFound);
      }
      var g := groups[name];
      var o := g.Add(rec, alloc, now);
      Repr := Repr + g.Repr;
      OneChanged(name);
      if !o.Id? {
        return M.Refused(G.Refusal(o));
      }
      return M.NewId(o.id);
    }

    method AddRange(name: string, rs: seq<Record>, alloc: Allocator, clock: nat -> int) returns (r: M.Reply)
      requires Valid()
      modifies this, Repr
      ensures Valid() && fresh(Repr - old(Repr))
      ensures View() == M.Step(hash, old(View()), M.AddRange(name, rs, alloc, clock))
      ensures r == M.ReplyTo(hash, old(View()), M.AddRange(name, rs, alloc, clock))
    {
      hide Group.Valid, Group.View, G.AddAll, M.FirstRefusal, M.Step, M.ReplyTo;
      M.AddRangeStep(hash, View(), name, rs, alloc, clock);
      if |rs| == 0 {
        return M.Refused(G.LogFailed(EntryNotFound));
      }
      if name !in groups {
        return M.Refused(G.GroupNotFound);
      }
      var g := groups[name];
      var refusal, firstId, lastId := g.AddRange(rs, alloc, clock);
      Repr := Repr + g.Repr;
      OneChanged(name);
      if refusal.Some? {
        return M.Refused(G.Refusal(refusal.value));
      }
      return M.NewIds(firstId, lastId);
    }

    method Read(name: string, id: nat, now: int) returns (r: M.Reply)
      requires Valid()
      modifies Repr
      ensures Valid() && Repr == old(Repr)
      ensures View() == M.Step(hash, old(View()), M.Read(name, id, now))
      ensures r == M.ReplyTo(hash, old(View()), M.Read(name, id, now))
    {
      hide Group.Valid, Group.View;
      if name !in groups {
        return M.Refused(G.GroupNotFound);
      }
      var g := groups[name];
      g.OwnsCache();
      var e := g.Read(id, now);
      OneChanged(name);
      return if e.Ok? then M.One(e.value) else M.Refused(G.LogFailed(e.error));
    }

    method ReadRange(name: string, start: nat, end: nat, clock: nat -> int) returns (r: M.Reply)
      requires Valid() && start <= end && end - start < U64_MAX
      modifies Repr
      ensures Valid() && Repr == old(Repr)
      ensures View() == M.Step(hash, old(View()), M.ReadRange(name, start, end, clock))
      ensures r == M.ReplyTo(hash, old(View()), M.ReadRange(name, start, end, clock))
    {
      hide Group.Valid, Group.View, G.AfterLookUps, G.ReadRangeReply;
      if name !in groups {
        return M.Refused(G.GroupNotFound);
      }
      var g := groups[name];
      g.OwnsCache();
      var es := g.ReadRange(start, end, clock);
      OneChanged(name);
      return M.Many(es);
    }

    method Remove(name: string, upTo: nat) returns (r: M.Reply)
      requires Valid()
      modifies Repr
      ensures Valid() && Repr == old(Repr)
      ensures View() == M.Step(hash, old(View()), M.Remove(name, upTo))
      ensures r == M.ReplyTo(hash, old(View()), M.Remove(name, upTo))
    {
      hide Group.Valid, Group.View, G.Remove;
      if name !in groups {
        return M.Refused(G.GroupNotFound);
      }
      var g := groups[name];
      g.Remove(upTo);
      OneChanged(name);
      return M.Done;
    }

    method GroupStats(name: string) returns (r: M.Reply)
      requires Valid()
      ensures r == M.ReplyTo(hash, View(), M.Stats(name))
    {
      hide Group.Valid, Group.View;
      if name !in groups {
        return M.Refused(G.GroupNotFound);
      }
      var g := groups[name];
      r := g.Stats();
    }
  }
}
