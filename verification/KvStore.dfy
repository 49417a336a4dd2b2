/** The key-value store as it is built: named hash maps, a clock, and sampled eviction when one is full. */
module KvStore {
  import opened Bytes
  import opened KvSpec

  class KvStore {
    var dbs: Kv

    constructor ()
      ensures dbs == map[]
    {
      dbs := map[];
    }

    /** Finds a database, creating it when it is missing. */
    method GetDbMut(d: string)
      modifies this
      ensures dbs == old(dbs)[d := DbOf(old(dbs), d)]
    {
      if d !in dbs {
        dbs := dbs[d := map[]];
      }
    }

    /** `order` is the order in which the hash map iterates over its keys. */
    method ExpireLeastUsed(d: string, order: seq<string>)
      requires d in dbs
      modifies this
      ensures dbs == old(dbs)[d := Evicted(old(dbs)[d], order)]
    {
      var sampleSize := SampleSize(|dbs[d]|);
      if sampleSize == 0 {
        return;
      }
      var candidates := SortByRank(dbs[d], Taken(order, sampleSize));
      var victims := Taken(candidates, VictimCount(sampleSize));
      assert victims[0..] == victims && victims == Victims(dbs[d], Sample(dbs[d], order));
      hide SortByRank, Victims;
      ghost var rest := Without(dbs[d], victims);
      for i := 0 to |victims|
        invariant d in dbs && dbs == old(dbs)[d := dbs[d]]
        invariant Without(dbs[d], victims[i..]) == rest
      {
        assert victims[i..][0] == victims[i] && victims[i..][1..] == victims[i + 1..];
        dbs := dbs[d := dbs[d] - {victims[i]}];
      }
    }

    method Set(d: string, key: string, val: bytes, ttl: int, now: int, used: int, order: seq<string>)
      modifies this
      ensures dbs == KvSpec.Set(old(dbs), d, key, val, ttl, now, used, order)
    {
      var ttlTs := if ttl == 0 then 0 else now + ttl;
      GetDbMut(d);
      if |dbs[d]| >= MAX_ENTRIES {
        ExpireLeastUsed(d, order);
      }
      dbs := dbs[d := dbs[d][key := DbEntry(val, ttlTs, 0, used)]];
    }

    method Get(d: string, key: string, now: int, used: int) returns (r: Option<DbEntry>)
      modifies this
      ensures dbs == AfterGet(old(dbs), d, key, now, used) && r == GetReply(old(dbs), d, key, now, used)
    {
      GetDbMut(d);
      if key !in dbs[d] {
        return None;
      }
      var e := dbs[d][key];
      if e.ttl != 0 && e.ttl < now {
        dbs := dbs[d := dbs[d] - {key}];
        return None;
      }
      e := e.(usedCount := e.usedCount + 1, lastUsed := used);
      dbs := dbs[d := dbs[d][key := e]];
      return Some(e);
    }

    method Del(d: string, key: string) returns (ok: bool)
      modifies this
      ensures dbs == KvSpec.Del(old(dbs), d, key) && ok == DelOk(old(dbs), d, key)
    {
      GetDbMut(d);
      if key !in dbs[d] {
        assert dbs[d] - {key} == dbs[d];
        return false;
      }
      dbs := dbs[d := dbs[d] - {key}];
      return true;
    }

    method Flush(d: string)
      modifies this
      ensures dbs == KvSpec.Flush(old(dbs), d)
    {
      GetDbMut(d);
      dbs := dbs[d := map[]];
    }
  }
}
