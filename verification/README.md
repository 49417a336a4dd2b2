# Verified model of the storage server

A Dafny model of the server's in-memory storage engine, its caches, its append-only record and recovery, its
pipeline and its wire formats. `dafny verify dfyconfig.toml` checks the whole project.

Each part comes in two layers. A module whose name ends in `Spec` says on plain values what the part means and proves
what it promises: over every run, every interleaving or every byte string. A class or method beside it follows the
program's own form (slots linked by index, byte segments written in place, counters, moving positions) and is proved
to do exactly what the value layer says, so every theorem about the values carries over to it.

| part | value layer | as built |
|---|---|---|
| LRU cache over slot vectors | `LruSpec` | `Lru` |
| segmented log | `LogSpec` | `SegLog` |
| groups: cache in front of log | `GroupSpec`, `ManagerSpec` | `Groups` |
| keyed lists over a segment pool | `ListSpec`, `ListHistory` | `SegList` |
| key-value store with sampled eviction | `KvSpec` | `KvStore` |
| record, replay, recovery | `Aof`, `DbSpec`, `Replay`, `Recovery`, `Recording` | `Aof`, `Database` |
| pipeline jobs, locks, queue | `JobSpec`, `PipelineSpec` | `Pipeline` |
| base64, framing, commands, responses, sync | `Base64`, `Wire`, `ProtoSpec`, `ListProto`, `ReplySpec` | `Base64`, `Codec`, `Proto`, `Client`, `Response`, `Sync` |

What the program takes from outside is a parameter: clock readings, the answer of the allocator, the iteration order
of a hash map, the hash function behind the cache keys, the replacement function for malformed text, and the schedule
of concurrent tasks. Strings are sequences of characters in the storage engine and UTF-8 bytes on the wire.

Properties one might expect that do not hold, each with the exact condition and an input that shows it:

- A cache of capacity 0 is unbounded (`LruSpec.CapacityRespectedIff`).
- A log whose segment allocation failed once never accepts a record again (`LogSpec.FailedAllocationIsForever`,
  `LogSpec.AcceptedIff`; reached in `LogSpec.FailedAllocationReached`).
- A read, or a range read, through the cache can return another id's entry when two cache keys collide
  (`GroupSpec.ReadsExactIff`; reached in `ManagerSpec.CollisionShows`).
- `pop_count(n)` removes one item too many unless there are no more than n (`ListSpec.PopCountAsAskedIff`), and all of
  them are lost when there are some but no more than n (`ListSpec.PopCountKeepsIff`; reached in
  `ListSpec.PopCountLosesOne`).
- An operation that fails midway leaves effects that are not recorded, so replay does not rebuild them
  (`Recovery.StepRecoverableIff`; reached in `Recovery.MidwayFailureReached`).
- The first entry written after a crash in the middle of a line is lost (`Aof.WriteIsSeenIff`; reached in
  `Aof.TornLineReached`).
- Key-value reads and flushes are not recorded, so a replay differs (`Recording.KvReplaysIff`; reached in
  `Recording.FlushComesBack`).
- A replay that is refused a segment panics at the next record for that log, and then the server does not start
  (`Recovery.ReplayPanicsIff`, `Database.Open`; reached in `Recovery.ReplayPanicReached`).
- An empty value stored under a key reads back as no value (`ReplySpec.ValueRoundTripIff`).
- An empty error message, or one longer than 65535 bytes, does not come back (`ReplySpec.ErrorRoundTripIff`).
- The client's list requests never arrive as what was meant (`Client.ListRequestsMisread`).
- A sync whose frame exceeds 16 MiB never arrives (`Sync.SyncArrivesIff`).

## Model

| member | source | states |
|---|---|---|
| LruSpec.RunKeepsKeysDistinct | server/src/db/lru.rs:85-146 | over every run of insert, get and remove, no key is cached twice |
| LruSpec.RunIsRecencyOrdered | server/src/db/lru.rs:85-136 | over every run, items stand in the order of their last insert or hit, latest first; the touch times are defined on the run itself, not on the list |
| LruSpec.RunHoldsLastInserts | server/src/db/lru.rs:85-146 | over every run, the value and expiry cached under a key are those last inserted under it |
| LruSpec.InsertEvictsLeastRecent | server/src/db/lru.rs:99-123 | an insert into a full cache drops exactly one item, the one whose last insert or hit is oldest, and keeps the rest in order |
| LruSpec.StepLosesIff | server/src/db/lru.rs:85-146 | a cached key is gone after a step if and only if it was removed, a get found it expired, or a new key was inserted into a full cache and it stood last |
| LruSpec.RunWithinCapacity | server/src/db/lru.rs:99-111 | with a positive capacity no run exceeds it |
| LruSpec.CapacityRespectedIff | server/src/db/lru.rs:99-111 | every run respects the capacity if and only if the capacity is at least 1: capacity 0 never evicts |
| LruSpec.WithoutDistinct | server/src/db/lru.rs:138-145 | removing a key removes its only item, leaves no other under it, and keeps the rest in order |
| LruSpec.GetIff | server/src/db/lru.rs:126-136 | a get answers a value if and only if an item with that key and value is there whose expiry is not before now |
| LruSpec.GetAfterInsert | server/src/db/lru.rs:85-136 | what was just inserted is got back until it expires, and then no more, whatever the capacity |
| Lru.MovedInv | server/src/db/lru.rs:88-97 | detaching a slot and attaching it in front keeps both link directions, the two maps and the split into linked and free slots |
| Lru.DroppedInv | server/src/db/lru.rs:99-111 | unlinking a slot and freeing it keeps the whole invariant and removes exactly that item |
| Lru.AddedInv | server/src/db/lru.rs:113-123 | a slot taken from the free stack, or a new one, linked in front keeps the whole invariant and adds exactly that item |
| Lru.LRU.constructor | server/src/db/lru.rs:30-41 | an empty cache satisfies the invariant |
| Lru.LRU.AllocSlot | server/src/db/lru.rs:43-53 | reuses the last freed slot, or adds one at the end |
| Lru.LRU.Detach | server/src/db/lru.rs:55-70 | the four link updates of detaching |
| Lru.LRU.AttachFront | server/src/db/lru.rs:72-83 | the link updates of attaching in front |
| Lru.LRU.Insert | server/src/db/lru.rs:85-124 | the slots refine the recency list: overwrite and move to front, or evict the last and add in front |
| Lru.LRU.Overwrite | server/src/db/lru.rs:88-97 | an existing key gets its new value and expiry and moves to the front |
| Lru.LRU.Evict | server/src/db/lru.rs:99-111 | the tail slot goes, and with it the last item |
| Lru.LRU.InsertNew | server/src/db/lru.rs:113-123 | a new key enters at the front; the slots never outnumber a positive capacity |
| Lru.LRU.Get | server/src/db/lru.rs:126-136 | a hit returns the value and moves it to the front; an expired item is removed; a miss changes nothing |
| Lru.LRU.MoveToFront | server/src/db/lru.rs:133-135 | a hit is detached and attached in front |
| Lru.LRU.Remove | server/src/db/lru.rs:138-145 | removes the key's item and returns its value, and leaves every other item in place |
| LogSpec.RunRefinesHistory | server/src/db/seg_log.rs:79-163 | over every run of append and trim, ids are handed out without gaps from 1 and the live records are exactly the accepted ones from the trim point on |
| LogSpec.RunSpaceBound | server/src/db/seg_log.rs:67-124 | after any run without a failed allocation, the segments passed hold at most twice the bytes ever written, and there are max(8, active + 1) segments |
| LogSpec.AppendKeepsPacking | server/src/db/seg_log.rs:84-90 | an append keeps the next-fit packing bound, whether it fits, moves on, or fails to allocate |
| LogSpec.FailedAllocationIsForever | server/src/db/seg_log.rs:84-98 | once an allocation has failed, every later append of a record that fits a segment panics and no record is accepted again |
| LogSpec.FailedAllocationReached | server/src/db/seg_log.rs:84-90 | such a log is reached: eight records of a full segment each, and a ninth whose segment is refused |
| LogSpec.AcceptedIff | server/src/db/seg_log.rs:79-90 | an append succeeds if and only if the record fits a segment, no allocation failed before, and the segment needed is there or can be had |
| LogSpec.OnlyLargeNotTaken | server/src/db/seg_log.rs:79-90 | where the segments can be had, a run of appends is taken whole if and only if no record is larger than a segment |
| ManagerSpec.RangeRefusedIff | server/src/db/groups.rs:121-134 | a range append is refused if and only if some record of it does not fit a segment, or needs one that cannot be had, when its turn comes; a calculation on sizes and the writer's position |
| LogSpec.ReadRangeIsReads | server/src/db/seg_log.rs:141-146 | a range read is the single reads of the range in id order, without the misses |
| LogSpec.RefusalIff | server/src/db/seg_log.rs:79-98 | an append fails as too large if and only if the payload is over 65516 bytes; it panics if and only if it is not and an allocation failed before; it fails for the limit of 2^30 segments, or for memory, if and only if a new segment is needed and the limit is reached, or is not reached and the allocation is refused |
| LogSpec.TrimKeepsIff | server/src/db/seg_log.rs:148-163 | after a trim a read of an id below the cutoff finds nothing, and every other read answers as before; the next id stays |
| SegLog.DecodeEncode | server/src/db/seg_log.rs:99-110 | the header and payload written are the header and payload read |
| SegLog.WrittenLaid | server/src/db/seg_log.rs:97-122 | writing at the cursor keeps every live record in bounds, in id order, disjoint and byte-for-byte intact |
| SegLog.TrimmedInv | server/src/db/seg_log.rs:148-163 | zeroing the segments before the first survivor's alters no surviving record |
| SegLog.ReadBack | server/src/db/seg_log.rs:126-139 | at the location the index gives, the bytes decode to the live record with that id |
| SegLog.IndexSize | server/src/db/seg_log.rs:112-122 | the index has as many entries as there are live records |
| SegLog.SegLog.CountIsIndexSize | server/src/db/seg_log.rs:175-177 | `entry_count` is the size of the index |
| SegLog.CopyInto | server/src/db/seg_log.rs:99-110 | a copy changes the addressed bytes and no other |
| SegLog.WriteRecord | server/src/db/seg_log.rs:97-110 | the four copies lay down the encoded record and change nothing else in the segment |
| SegLog.Zero | server/src/db/seg_log.rs:157-159 | clears one segment |
| SegLog.SegLog.constructor | server/src/db/seg_log.rs:44-65 | eight distinct zeroed segments, next id 1 |
| SegLog.SegLog.AllocateSeg | server/src/db/seg_log.rs:67-77 | adds a zeroed segment, or reports the limit or the refusal and changes nothing |
| SegLog.SegLog.MakeRoom | server/src/db/seg_log.rs:84-90 | moves the writer to the next segment when the record does not fit; when allocation fails the writer has already moved |
| SegLog.SegLog.Append | server/src/db/seg_log.rs:79-124 | the byte segments refine the plain log: the record enters under the next id, or the error, or the panic of a log whose allocation failed |
| SegLog.SegLog.Read | server/src/db/seg_log.rs:126-139 | decodes exactly the record appended under the id, or reports it missing |
| SegLog.SegLog.GetRawEntrySlice | server/src/db/seg_log.rs:165-173 | the raw bytes of a live record are its encoding |
| SegLog.SegLog.ReadRange | server/src/db/seg_log.rs:141-146 | the live records of the range, in id order |
| SegLog.SegLog.Trim | server/src/db/seg_log.rs:148-163 | drops exactly the records below the cutoff, returns their ids, and leaves the count equal to the index size |
| SegLog.SegLog.ZeroBefore | server/src/db/seg_log.rs:154-161 | the zeroing loop clears exactly the segments before the first survivor's |
| SegLog.SegLog.DropIds | server/src/db/seg_log.rs:149-153 | the removal loop takes exactly the ids below the cutoff out of the index |
| GroupSpec.AddCoherent | server/src/db/groups.rs:93-106 | adding keeps every cached entry live and exact |
| GroupSpec.RemoveCoherent | server/src/db/groups.rs:181-191 | trimming and invalidating keeps every cached entry live and exact, whatever the keys collide with |
| GroupSpec.InvalidatedItems | server/src/db/groups.rs:187-189 | invalidation drops every item cached under one of the trimmed ids' keys and adds none |
| GroupSpec.ReadsExactIff | server/src/db/groups.rs:138-179 | in a coherent group all reads, of every 64-bit id at every time, are the log's if and only if no cached key is also the key of another id; and so are all range reads |
| GroupSpec.ReadExact | server/src/db/groups.rs:138-148 | a read through the cache is the log's read when no cached entry has that id's key and another id |
| GroupSpec.AllHitsExact | server/src/db/groups.rs:165-176 | a range served wholly from the cache is the log's range when no cached entry has the key of an id in it and another id |
| GroupSpec.ReadRangeExact | server/src/db/groups.rs:150-179 | a range read, whether or not the cache serves it, is the log's when no cached entry has the key of an id in it and another id |
| GroupSpec.AliasShows | server/src/db/groups.rs:143-146 | an aliased id is answered with the other id's entry |
| ManagerSpec.CachesAreTransparent | server/src/db/groups.rs:70-209 | over every run in which no lookup meets a cached entry of another id under the same key, whatever expires, is evicted, trimmed, dropped or created again, every reply is that of a manager without caches, and every cached entry is live and exact |
| ManagerSpec.InjectiveIsTransparent | server/src/db/groups.rs:70-209 | when different 64-bit ids have different keys, that is every run |
| ManagerSpec.CollisionShows | server/src/db/groups.rs:93-148 | an alias is met from the start: when the keys of ids 1 and 2 collide, the second record is read under both |
| ManagerSpec.RecreatedIsEmpty | server/src/db/groups.rs:77-91 | a group created again under a dropped name answers every read with entry not found, whatever happened to other groups in between |
| ManagerSpec.StepLogs | server/src/db/groups.rs:77-191 | the logs behind the caches move exactly as they would without caches |
| ManagerSpec.StepCoherent | server/src/db/groups.rs:77-191 | every operation keeps every group's cache coherent |
| ManagerSpec.ReplyExact | server/src/db/groups.rs:77-208 | an operation's reply is the uncached one when no id it looks up has the key of a cached entry of another id |
| ManagerSpec.NewIdsReadBack | server/src/db/groups.rs:108-148 | when a range append is answered with a first and a last id, there are as many ids from the one to the other as records, and each record reads back under its own id, in order |
| ManagerSpec.NewIdReadsBack | server/src/db/groups.rs:93-148 | the id an append is answered with is the one its record reads back under |
| ManagerSpec.CachedNewIdsReadBack | server/src/db/groups.rs:108-148 | the same for a range append through the caches, for every read that meets no alias |
| ManagerSpec.CachedNewIdReadsBack | server/src/db/groups.rs:93-148 | the same for an append through the caches |
| ManagerSpec.RangeStopsAt | server/src/db/groups.rs:121-135 | a refused range append stops at its first record that is refused where those before it left the log: it is answered with that refusal, the records before it stay and those behind it are not tried |
| ManagerSpec.RangeTells | server/src/db/groups.rs:150-179 | a range read answers with just the entries that single reads of the ids in the range answer with, by ascending id |
| ManagerSpec.RefusedIff | server/src/db/groups.rs:77-208 | which operations are refused for a missing group, a name in use, an empty range, or an id that is not live, and which are done |
| ManagerSpec.AddRefusedIff | server/src/db/groups.rs:93-106 | an append to a group is refused as too large if and only if the payload is over 65516 bytes, crashes if and only if it is not and an allocation failed before, and is answered with the next id if and only if the log takes it |
| ManagerSpec.GroupsAfter | server/src/db/groups.rs:77-191 | an operation leaves every group but the one it names alone; a created group is empty, a dropped one gone; reads and statistics change nothing |
| ManagerSpec.StatsTell | server/src/db/groups.rs:197-208 | the statistics tell how many ids can be read, that they are those just below the next id, and that the next id is the one the next append is given |
| ManagerSpec.RemovedIff | server/src/db/groups.rs:181-191 | after a removal up to an id, reads below it find nothing and every other read answers as before |
| ManagerSpec.CachesBounded | server/src/db/groups.rs:42-63 | over every run no group's cache holds more than 100,000 entries |
| GroupSpec.CachedFor30s | server/src/db/groups.rs:42-59 | an accepted record is served from the cache up to 30 seconds after it was added, and then no more |
| Groups.Group.constructor | server/src/db/groups.rs:42-49 | an empty log behind an empty cache of 100000 entries and 30 seconds |
| Groups.Group.CachePut | server/src/db/groups.rs:51-59 | caches the entry under its key and leaves the log alone |
| Groups.Group.CacheInvalidate | server/src/db/groups.rs:61-63 | drops what is cached under the id's key |
| Groups.Group.Add | server/src/db/groups.rs:103-105 | appends and, only on success, caches |
| Groups.Group.AddRange | server/src/db/groups.rs:121-135 | appends in turn up to the first refusal, which it reports; the earlier records stay |
| Groups.Group.LookUp | server/src/db/groups.rs:143-146 | the cache's answer for an id, with the move to front or the expiry it causes |
| Groups.Group.Read | server/src/db/groups.rs:143-147 | the cached entry if there is one, otherwise the log's |
| Groups.Group.ReadRange | server/src/db/groups.rs:161-178 | looks up ids until the first miss, then falls back to the log |
| Groups.Group.LookUpRange | server/src/db/groups.rs:161-172 | the entries of the whole range when every id hits, otherwise nothing; the cache as the lookups up to the first miss leave it |
| Groups.Group.Remove | server/src/db/groups.rs:186-190 | trims the log and invalidates every trimmed id |
| Groups.GroupManager.CreateGroup | server/src/db/groups.rs:77-84 | creates an empty group, or refuses a name in use |
| Groups.GroupManager.DropGroup | server/src/db/groups.rs:86-91 | removes the group and nothing else, or refuses an unknown name |
| Groups.GroupManager.Add | server/src/db/groups.rs:93-106 | adds to the named group and changes no other |
| Groups.GroupManager.AddRange | server/src/db/groups.rs:108-136 | an empty range is refused before the name is looked up; otherwise the named group alone changes |
| Groups.GroupManager.Read | server/src/db/groups.rs:138-148 | the reply of the cached model, and the state it leaves |
| Groups.GroupManager.ReadRange | server/src/db/groups.rs:150-179 | the reply of the cached model, and the state it leaves |
| Groups.GroupManager.Remove | server/src/db/groups.rs:181-191 | trims the named group and changes no other |
| Groups.GroupManager.GroupStats | server/src/db/groups.rs:197-208 | live entries, segments and next id of the named group |
| ListSpec.FirstInFirstOut | server/src/db/seg_list.rs:38-84 | whatever is pushed after an item, popping the items ahead of it and then one more gives that item |
| ListHistory.EveryRunIsQueue | server/src/db/seg_list.rs:38-150 | over every run of every list operation and for each key, the list holds just the accepted items not yet taken, in order of acceptance, and no item is taken twice; as long as ranges are taken from the front only, what was taken, in order, followed by what is there, is what was accepted |
| ListHistory.HandsOutWhatItTakes | server/src/db/seg_list.rs:67-150 | an operation hands its caller exactly the items it takes, except a flush and a counted pop that finds too few, which hand out nothing |
| ListHistory.StepChanges | server/src/db/seg_list.rs:38-150 | each operation, for the key it names, adds at the end, removes one range, or changes nothing; other keys keep their items |
| ListSpec.PopCountIsPops | server/src/db/seg_list.rs:95-105 | `pop_count(n)` is n + 1 pops; when it succeeds it returns n + 1 items |
| ListSpec.PopCountAsAskedIff | server/src/db/seg_list.rs:95-105 | it removes the n items asked for if and only if there are no more than n |
| ListSpec.PopCountKeepsIff | server/src/db/seg_list.rs:95-105 | it hands out what it removes if and only if there are no items or more than n; otherwise they are all gone and only an error comes back |
| ListSpec.PopCountLosesOne | server/src/db/seg_list.rs:95-105 | one item asked for with a count of one is lost; one of two asked for with a count of zero is not |
| ListSpec.PushRangeStep | server/src/db/seg_list.rs:86-94 | a range push is its first push followed by the rest, and stops at the first item that does not fit |
| ListSpec.PushRefusedIff | server/src/db/seg_list.rs:38-94 | a push is refused if and only if the payload is over 65516 bytes; a range push if and only if one of its items is |
| ListSpec.TakeRefusedIff | server/src/db/seg_list.rs:67-150 | a pop fails if and only if there is no item; a range pop if and only if the key is missing, or else the end is past the last item; a flush if and only if the key is missing |
| ListSpec.RangeTaken | server/src/db/seg_list.rs:106-134 | what a range pop hands out stood from start to below end; what was ahead of it and behind it stays |
| SegList.PushedContents | server/src/db/seg_list.rs:46-62 | filling the first free segment adds exactly the payload at the end of its key's list |
| SegList.ReleasedContents | server/src/db/seg_list.rs:118-131 | taking a range of segments out of a key removes exactly those items and no other key's |
| SegList.ReleasedPlaces | server/src/db/seg_list.rs:118-131 | every segment stays in exactly one place when a range goes back to the pool |
| SegList.GrownInv | server/src/db/seg_list.rs:151-164 | new zeroed segments join the pool without touching any list |
| SegList.FreePlusWritten | server/src/db/seg_list.rs:21-164 | free and written segments are disjoint, each written one is in its own list, and together they are 16384 and 16384 more for each growth |
| SegList.SegList.constructor | server/src/db/seg_list.rs:21-36 | 16384 distinct zeroed segments, all free |
| SegList.SegList.GrowSegs | server/src/db/seg_list.rs:151-164 | 16384 more free segments and the same lists |
| SegList.SegList.Push | server/src/db/seg_list.rs:38-65 | appends the payload to its key, or reports that it is too large; the pool grows when empty |
| SegList.SegList.FillFirst | server/src/db/seg_list.rs:46-62 | the first free segment is filled and handed to the key |
| SegList.SegList.Reclaim | server/src/db/seg_list.rs:74-82 | returns the payload, zeroes the segment and frees it |
| SegList.SegList.Pop | server/src/db/seg_list.rs:67-84 | returns and removes the first item; a missing key and an empty list are the same error |
| SegList.SegList.PushRange | server/src/db/seg_list.rs:86-94 | pushes in turn; what was pushed before a failure stays |
| SegList.SegList.PopCount | server/src/db/seg_list.rs:95-105 | removes count + 1 items; when there are fewer, all are gone and only the error comes back |
| SegList.SegList.PopRange | server/src/db/seg_list.rs:106-134 | removes and returns the range in order, or reports why not and changes nothing |
| SegList.SegList.Drain | server/src/db/seg_list.rs:118-133 | takes a range out of the key's segments and reclaims each |
| SegList.SegList.TakeOut | server/src/db/seg_list.rs:118-131 | the segments of the range leave the list and go back to the pool zeroed; their payloads come out in order |
| SegList.SegList.Len | server/src/db/seg_list.rs:136-139 | the length, and an empty list under a key that was missing |
| SegList.SegList.Flush | server/src/db/seg_list.rs:140-150 | empties the key's list into the pool |
| KvSpec.EvictionGuarantee | server/src/db/kv.rs:63-82 | for any iteration order, eviction looks at the first min(n, max(16, n / 5)) keys and removes max(1, sample / 4) of them and no other; each of these was used less often than every sampled key that stays, or as often and not later |
| KvSpec.SetGuarantee | server/src/db/kv.rs:102-123 | after a set the key has its new value, the database holds at most 1024 entries, every other entry left is unchanged, and of the others exactly the victims of the eviction are gone, and only when the database was full |
| KvSpec.GetAfterSetIff | server/src/db/kv.rs:33-47 | a value just set is read back, counted as used once, until and only until its lifetime is over; a lifetime of 0, or one that would end at instant 0, never is |
| KvSpec.GoneAfter | server/src/db/kv.rs:33-61 | after a delete, a flush, or a read that finds it expired, a key is gone |
| KvSpec.RunBounded | server/src/db/kv.rs:33-123 | over every run and every iteration order no database exceeds 1024 entries |
| KvSpec.SortSorted | server/src/db/kv.rs:76 | the sort is ascending and a permutation |
| KvSpec.FullEviction | server/src/db/kv.rs:63-82 | a full database: 204 keys are looked at, 51 go and 973 stay |
| KvSpec.GetCounts | server/src/db/kv.rs:33-47 | a hit hands out the entry with its use counted and its time of use set, and that is how it is kept; an expired entry is dropped |
| KvSpec.OthersKept | server/src/db/kv.rs:33-61 | a get and a delete leave the other keys alone, a delete fails if and only if the key is not there, and a flush leaves none |
| KvSpec.OtherDbsKept | server/src/db/kv.rs:96-145 | no operation touches another database |
| KvStore.KvStore.ExpireLeastUsed | server/src/db/kv.rs:63-82 | removes the least used of the sample, as the value layer picks them |
| KvStore.KvStore.Set | server/src/db/kv.rs:102-123 | evicts first when the database is full, even for a key already there, then stores with a fresh use count |
| KvStore.KvStore.Get | server/src/db/kv.rs:125-128 | counts a hit, removes an expired entry, and creates a missing database |
| KvStore.KvStore.Del | server/src/db/kv.rs:130-132 | removes the key or reports it missing |
| KvStore.KvStore.Flush | server/src/db/kv.rs:141-145 | empties the database |
| Aof.LoadSeparated | server/src/db/aof.rs:212-236 | each category's list is the file's entries of that category in file order; blank and corrupt lines are skipped; nothing is lost between the three |
| Aof.WriteIsSeenIff | server/src/db/aof.rs:180-192 | a loader sees what it saw before and the new entry if and only if the file was empty or ended in a newline; otherwise the new entry is lost, and with it one that lacked its newline |
| Aof.TornLineReached | server/src/db/aof.rs:180-192 | such a loss is reached: a crash in the middle of the first write, a restart, and one write more |
| Aof.LeftIsPrefix | server/src/db/aof.rs:212-258 | a crash that leaves whole lines and perhaps part of the next loses nothing but the end of what a loader saw |
| Replay.ReplayIsConfluent | server/src/db/db.rs:48-87 | whatever the order in which the three tasks take turns, once all have ended the three stores are those of applying the whole file in order, and the same tasks have panicked |
| Replay.AdvanceKeepsFinal | server/src/db/db.rs:58-78 | one task's step, or its end in a panic, does not change what the other tasks' stores will come to |
| DbSpec.OneStore | server/src/db/db.rs:150-490 | an operation changes one store only, and records only entries of that store's category |
| Recording.RecordedReplays | server/src/db/db.rs:150-553 | every operation that succeeds, other than a key-value read or flush or a length, records one entry, and that entry, replayed where the operation was carried out, does to all three stores just what the operation did and panics nowhere; all others record nothing |
| Recording.KvReplaysIff | server/src/db/db.rs:150-217 | replaying what a key-value operation recorded brings the databases to where it left them if and only if it was not a read that found its key nor a flush that found anything |
| Recording.KvRunReplays | server/src/db/db.rs:150-217 | over every run of operations of all kinds without such reads and flushes, replaying the key-value entries with the clocks and iteration orders their operations met rebuilds every key-value database, use counts and evictions included |
| Recording.FlushComesBack | server/src/db/db.rs:150-217 | a value that was set and then flushed is read again after the record is replayed |
| Recording.FlushReplays | server/src/db/db.rs:493-553 | a flush entry, which no operation writes, empties its database when it is replayed and touches nothing else |
| Recording.KvOperations | server/src/db/db.rs:150-217 | what a set, a delete and a flush of the database mean for later reads, and when a delete fails |
| Recording.PushAndPop | server/src/db/db.rs:365-419 | what a push and a pop do to the items under a key, and when they fail |
| Recording.FlushAndLen | server/src/db/db.rs:466-490 | what a flush and a length do to the items under a key, and when the flush fails |
| Recovery.StepRecoverableIff | server/src/db/db.rs:150-490 | from a recoverable state, an operation leaves a recoverable state if and only if it does not fail midway, which is decided by the state and the arguments before the call |
| Recovery.ListMidwayDiffers | server/src/db/db.rs:382-464 | a range push or a counted pop that fails midway leaves lists the record does not rebuild |
| Recovery.LogMidwayDiffers | server/src/db/db.rs:284-307 | a range append that fails midway leaves a log the record does not rebuild |
| Recovery.MidwayFailureReached | server/src/db/db.rs:444-464 | a midway failure is reached from the start: one item pushed, and a counted pop that asks for two |
| Recovery.ReplayedIsRecovered | server/src/db/db.rs:493-553 | whatever clocks, iteration orders and allocators a replay meets, it rebuilds the same lists; and the same logs, with the same panics, as long as no needed segment is refused |
| Recovery.ReplayPanicsIff | server/src/db/seg_log.rs:79-98 | a replayed append panics, and ends the log task, if and only if the record fits a segment and its log was refused a segment before |
| Recovery.ReplayPanicReached | server/src/db/seg_log.rs:79-98 | such a panic is reached: ten records of a full segment each, replayed with no more than the initial segments |
| Recovery.PrefixWasWhole | server/src/db/aof.rs:159-193 | every prefix of the record was the whole record at some point of the life, crashes included |
| Recovery.RestartSane | server/src/db/db.rs:24-39 | a restart on a file whose entries were all of the record at some recoverable point panics nowhere and comes to a recoverable database with the lists and the logs of that point, up to absent empty lists, as long as no needed segment is refused |
| Recovery.LifeSane | server/src/db/db.rs:24-490 | after every life of operations, crashes and restarts in which nothing fails midway and nothing is written behind a torn line, the database can be recovered from its file |
| Recovery.CrashRecovery | server/src/db/db.rs:24-87 | after any life of operations, crashes that leave part of the file, perhaps torn, and restarts, in which nothing fails midway and nothing is written behind a torn line, and one more crash: replay under any schedule, clocks and iteration orders panics nowhere and rebuilds the groups, records, next ids and list contents of a point where what is left had been recorded, those of the end if nothing was lost; as long as no needed segment is refused |
| Recovery.ReplayRebuilds | server/src/db/db.rs:48-87 | the same for every life whose record began with a given file |
| Database.Uncached | server/src/db/db.rs:219-350 | for the operations that write, the caches change neither the logs nor the reply |
| Database.Database.constructor | server/src/db/db.rs:24-39 | three empty stores and nothing recorded |
| Database.Database.ListPush | server/src/db/db.rs:365-380 | pushes, and records if and only if that succeeded; the other stores do not change |
| Database.Database.ListPushRange | server/src/db/db.rs:382-401 | pushes in turn, and records if and only if every item fitted |
| Database.Database.ListPop | server/src/db/db.rs:403-419 | pops, and records if and only if there was an item |
| Database.Database.ListPopRange | server/src/db/db.rs:421-442 | removes the range, and records if and only if it was in bounds |
| Database.Database.ListPopCount | server/src/db/db.rs:444-464 | removes count + 1 items; a failure midway keeps what was removed and records nothing |
| Database.Database.ListLen | server/src/db/db.rs:466-473 | the length; nothing is recorded although the key is created |
| Database.Database.ListFlush | server/src/db/db.rs:475-490 | empties the list, and records if and only if the key was there |
| Database.Database.LogCreateGroup | server/src/db/db.rs:219-236 | creates, and records if and only if the name was free |
| Database.Database.LogDropGroup | server/src/db/db.rs:238-255 | drops, and records if and only if the group was there |
| Database.Database.LogAdd | server/src/db/db.rs:257-282 | appends, and records if and only if the append was accepted |
| Database.Database.LogAddRange | server/src/db/db.rs:284-307 | appends in turn, and records if and only if all were accepted |
| Database.Database.LogRemove | server/src/db/db.rs:332-350 | trims and records |
| Database.Database.KvSet | server/src/db/db.rs:150-170 | stores and records |
| Database.Database.KvGet | server/src/db/db.rs:172-178 | counts the read or drops an expired entry, and records nothing |
| Database.Database.KvDel | server/src/db/db.rs:180-194 | deletes, and records if and only if the key was there |
| Database.Database.KvFlush | server/src/db/db.rs:204-217 | flushes and records nothing |
| Database.Database.ApplyAof | server/src/db/db.rs:493-553 | replaying an entry changes the store of its category as the operation would, ignores its error, records nothing, and tells whether it panicked |
| Database.Database.ReplayTasks | server/src/db/db.rs:48-87 | the three replay loops, taking turns as scheduled, on the real stores; a panic ends its task |
| Database.Open | server/src/db/db.rs:24-87 | opening a file sorts it and replays it; there is no database if and only if a task panicked; once the tasks are done, and if no needed segment was refused, it holds the lists and logs of every smooth life whose record began with the file |
| JobSpec.UniqueResourcesAre | server/src/db/pipeline.rs:215-222 | each resource a job's commands use, once, and no other |
| JobSpec.ExecuteComposes | server/src/db/pipeline.rs:369-398 | a job in two halves: the second runs from where a successful first half ends, and never runs after a failed one |
| JobSpec.FailsAtFirst | server/src/db/pipeline.rs:364-399 | a job fails with the error of its first command that fails where those before it left the database, and has then done that command and those before it, and nothing more |
| JobSpec.SucceedsIff | server/src/db/pipeline.rs:364-399 | a job succeeds if and only if none of its commands fails where those before it left the database, and has then done them all |
| JobSpec.ExecuteLocal | server/src/db/pipeline.rs:364-399 | a job's outcome, record and effect depend only on the stores it uses |
| JobSpec.ExecuteFrame | server/src/db/pipeline.rs:364-399 | a job leaves the stores it does not use alone |
| JobSpec.DisjointJobsCommute | server/src/db/pipeline.rs:364-399 | two jobs with no resource in common commute: the same stores, the same two outcomes and a record that replays alike, even when either stops at a failing command |
| JobSpec.OrdersAgree | server/src/db/pipeline.rs:364-399 | serialisability: two orders of the same jobs that agree, resource by resource, on the order of its users give the same stores and the same outcome to every job |
| JobSpec.RenamedOrdersAgree | server/src/db/pipeline.rs:364-399 | the same for jobs known under other ids here and there |
| PipelineSpec.AcquiredAre | server/src/db/pipeline.rs:194-202 | acquiring adds one to exactly the counters asked for |
| PipelineSpec.ReleasedAre | server/src/db/pipeline.rs:204-212 | releasing takes one, down to zero, from exactly the counters given back |
| PipelineSpec.EnqueuedSorted | server/src/db/pipeline.rs:245-258 | a newly arrived job keeps the queue in order of command count, equal counts in order of arrival |
| PipelineSpec.PopTakesLeast | server/src/db/pipeline.rs:284-291 | what is popped is the least runnable job, and the others keep their order |
| PipelineSpec.EveryRun | server/src/db/pipeline.rs:305-333 | over every interleaving, with other clients' operations in between, each counter is the number of holders and at most 1, no two holders share a resource, no job is lost or run twice, the queue has jobs with fewer commands first and among equals the first to arrive, and the database and all outcomes are those of the jobs and operations run one at a time |
| PipelineSpec.EveryRunRecoverable | server/src/db/pipeline.rs:305-399 | over every interleaving, what the jobs did can be recovered from the record, as long as no other client's operation fails midway |
| PipelineSpec.JobRecoverable | server/src/db/pipeline.rs:364-399 | a job leaves a recoverable database recoverable, whether or not it fails: no pipeline command can fail midway |
| PipelineSpec.ReleaseIsExact | server/src/db/pipeline.rs:204-212 | in every reachable state what a task gives back was counted exactly once, so the subtraction never stops at zero |
| PipelineSpec.IdleMeansRunnable | server/src/db/pipeline.rs:158-192 | in every reachable state where no task holds anything, every waiting task and every queued job can acquire all it needs |
| PipelineSpec.AcquireIff | server/src/db/pipeline.rs:158-192 | in every reachable state a waiting task can take its resources, and some queued job can be popped, if and only if no store its job uses is used by a job that a task holds resources for |
| PipelineSpec.RunsAgree | server/src/db/pipeline.rs:305-333 | two runs of the whole system that ran the same jobs and operations, arrived in whatever order, in the same order per resource, end with the same stores and tell everyone the same |
| PipelineSpec.RunsInArrivalOrderAgree | server/src/db/pipeline.rs:305-333 | the same for jobs and operations that arrived in the same order, with every outcome equal |
| PipelineSpec.KeptStep | server/src/db/pipeline.rs:305-333 | every step keeps every arrived job in exactly one place |
| PipelineSpec.CountedStep | server/src/db/pipeline.rs:263-282 | every step keeps the counters equal to the number of holders |
| PipelineSpec.SerialStep | server/src/db/pipeline.rs:323-328 | every step keeps the database that of a serial run of the jobs executed so far |
| Pipeline.Distinct | server/src/db/pipeline.rs:215-222 | the loop with a set of what was seen keeps first occurrences: each resource used, once |
| Pipeline.LockState.CanAcquire | server/src/db/pipeline.rs:159-192 | the two loops answer whether nobody holds any of the resources asked for; the first loop adds nothing |
| Pipeline.LockState.Acquire | server/src/db/pipeline.rs:194-202 | adds one holder per resource listed |
| Pipeline.LockState.Release | server/src/db/pipeline.rs:204-212 | takes one holder per resource listed, saturating |
| Pipeline.LockManager.Enqueue | server/src/db/pipeline.rs:245-261 | inserts behind every job with as few commands |
| Pipeline.LockManager.TryPopRunnable | server/src/db/pipeline.rs:284-291 | takes the first runnable job out, or changes nothing |
| Pipeline.LockManager.TryAcquire | server/src/db/pipeline.rs:263-274 | takes all the resources or none |
| Pipeline.RunCommand | server/src/db/pipeline.rs:370-392 | each command is the database operation it names |
| Pipeline.ExecuteJob | server/src/db/pipeline.rs:364-399 | runs the commands in order on the real database up to the first failure and reports it |
| Base64.ToBase64 | server/src/db/aof.rs:89-123 | the encoding loop; its output decodes back and has length 4 * ceil(n / 3) |
| Base64.FromBase64 | server/src/db/aof.rs:126-151 | the decoding loop |
| Base64.RoundTrip | server/src/db/aof.rs:89-151 | decoding undoes encoding for every byte string |
| Base64.EncodedLength | server/src/db/aof.rs:89-123 | the output has length 4 * ceil(n / 3) |
| Base64.PaddingOnlyAtEnd | server/src/db/aof.rs:104-120 | a character is `=` if and only if it is among the last (3 - n mod 3) mod 3 |
| Base64.Cut | server/src/db/aof.rs:94-101 | the four digits are the bit fields of the three bytes and determine them |
| Base64.CharInTable | server/src/db/aof.rs:91-91 | the alphabet is the 64 characters of section 4 of RFC 4648, in order |
| Base64.ShortVectors | server/src/db/aof.rs:89-123 | the test vectors of section 10 of RFC 4648 for f, fo and foo |
| Base64.LongVector | server/src/db/aof.rs:89-123 | the test vector for foobar |
| Codec.Decoder.Decode | server/src/server/codec.rs:14-40 | one frame, or nothing yet, or an error; what is not taken stays in the buffer |
| Codec.Decoder.Feed | server/src/server/codec.rs:14-40 | after a piece arrives, all complete frames come out and the rest stays: an unfinished frame, or one above the limit if decoding failed |
| Codec.DrainAppend | server/src/server/codec.rs:14-40 | decoding a longer buffer is decoding its start and going on with what that left |
| Codec.DrainLeavesNothing | server/src/server/codec.rs:14-40 | what is left in the buffer holds no further frame |
| Codec.ChunksDoNotMatter | server/src/server/codec.rs:14-40 | for every stream and every way of cutting it up, the frames found and whether decoding fails are those of the whole stream |
| Codec.FramesSurviveChunking | server/src/server/codec.rs:14-40 | any frames of at most 16 MiB, any unfinished suffix, any cutting: exactly those frames in order and exactly that suffix left |
| Codec.OversizeStops | server/src/server/codec.rs:23-28 | a frame above the limit fails the stream after the frames before it |
| Codec.HeadIff | server/src/server/codec.rs:14-40 | a frame is found if and only if the buffer begins with it, length and all, and it is at most 16 MiB long; decoding fails if and only if the four bytes of length say more than that |
| Wire.ManyBack | server/src/server/proto.rs:235-245 | a list of items reads back, whatever follows, if each item does |
| Wire.ManyExact | server/src/server/proto.rs:235-245 | a list that reads was written as just those items |
| Wire.StrExact | server/src/server/proto.rs:187-196 | a string that reads was written with its own length and is UTF-8 |
| Wire.StrFailsIff | server/src/server/proto.rs:187-196 | a string fails to read for want of its length, or of the bytes its length says, or for not being UTF-8, each if and only if the bytes are so |
| Wire.BytesFailIff | server/src/server/proto.rs:199-207 | a payload fails to read for want of its length, or of the bytes its length says, each if and only if the bytes are so |
| Proto.Cursor.ReadU8 | server/src/server/proto.rs:147-154 | reads one byte or reports the end, within the buffer |
| Proto.Cursor.ReadU16Le | server/src/server/proto.rs:157-164 | reads two bytes or reports the end, within the buffer |
| Proto.Cursor.ReadU32Le | server/src/server/proto.rs:167-174 | reads four bytes or reports the end, within the buffer |
| Proto.Cursor.ReadU64Le | server/src/server/proto.rs:177-184 | reads eight bytes or reports the end, within the buffer |
| Proto.Cursor.ReadText | server/src/server/proto.rs:187-196 | reads a string, or reports the end or bad UTF-8; within the buffer even on failure |
| Proto.Cursor.ReadBlob | server/src/server/proto.rs:199-207 | reads a payload or reports the end; within the buffer even on failure |
| Proto.ReadPairList | server/src/server/proto.rs:237-243 | the loop of `ADD_RANGE` |
| Proto.ReadBlobList | server/src/server/proto.rs:343-348 | the loop of `HA_SYNC` and `LPUSH_RANGE` |
| Proto.ParseListCommand | server/src/server/proto.rs:294-337 | the list commands, whose database name is read and dropped |
| Proto.ParseFields | server/src/server/proto.rs:218-353 | the dispatch on the tag, with the cursor within the buffer whatever happens |
| Proto.ParseCommand | server/src/server/proto.rs:210-354 | returns a log, group, key-value or sync command if and only if the frame starts with the frame a client builds for it, and a list command if and only if it starts with its tag, any database name, its key and its fields; every field in bounds |
| ProtoSpec.ParseIff | server/src/server/proto.rs:210-354 | a frame is read as a command if and only if it starts with that command's frame and every field is in bounds |
| ProtoSpec.RequestRoundTrip | client/src/client/client.rs:50-301 | the client's frame for any log, group or key-value command within the field bounds parses as that command |
| ProtoSpec.BodyExact | server/src/server/proto.rs:210-354 | what parses was written as a body of that command |
| ProtoSpec.TagRefusedIff | server/src/server/proto.rs:210-352 | a frame is refused as empty if and only if it is, and for its tag if and only if that is none of the twenty-four |
| ListProto.ListIff | server/src/server/proto.rs:294-337 | a frame is read as a list command if and only if its tag is that command's and some database name within 16 bits, the command's key and its fields follow, each within its bounds, whatever comes after |
| ListProto.TagTells | server/src/server/proto.rs:1-27 | the tag of a frame that parses tells which of the twenty-four commands it is |
| ListProto.FieldBytes | client/src/client/client.rs:50-56 | strings stand behind two bytes of length and payloads behind four, least significant byte first |
| ListProto.SetBytes | client/src/client/client.rs:233-241 | a set frame byte by byte: the lifetime stands in front of the value |
| ListProto.AddBytes | client/src/client/client.rs:76-82 | an add frame byte by byte |
| ListProto.PopRangeBytes | server/src/server/proto.rs:316-322 | a range pop frame byte by byte |
| Client.BuildCmdWithGroup | client/src/client/client.rs:50-56 | tag, length and name |
| Client.BuildCmdWithDbKey | client/src/client/client.rs:216-224 | tag, database and key |
| Client.AddFrame | client/src/client/client.rs:76-82 | the frame the parser reads as this add |
| Client.AddRangeFrame | client/src/client/client.rs:97-106 | the frame, built in a loop, that the parser reads as this range append |
| Client.ReadFrame | client/src/client/client.rs:123-124 | the frame the parser reads as this read |
| Client.ReadRangeFrame | client/src/client/client.rs:144-146 | the frame the parser reads as this range read |
| Client.RemoveFrame | client/src/client/client.rs:175-176 | the frame the parser reads as this trim |
| Client.KvSetFrame | client/src/client/client.rs:233-241 | the frame the parser reads as this set |
| Client.KvKeyFrame | client/src/client/client.rs:251-267 | the frames the parser reads as this get or delete |
| Client.NameFrame | client/src/client/client.rs:58-301 | the frames that carry only a name |
| Client.ListRequestsMisread | client/src/client/client.rs:321-428 | the server never reads a client's list request as the command meant, whatever follows the tag |
| Client.DecodeEntries | client/src/client/client.rs:149-167 | the entry loop over a moving position, with a panic where a slice is out of range |
| Client.DecodeNames | client/src/client/client.rs:185-194 | the name loop over a moving position, with a panic where a slice is out of range |
| Client.DecodeGroups | client/src/client/client.rs:184-198 | group names, or the error message, or a panic on an empty body |
| Client.DecodeKeys | client/src/client/client.rs:278-291 | keys, or the error message, or a panic on a short body |
| Client.CheckStatus | client/src/client/client.rs:303-312 | done, or the error message, also for an empty body |
| Client.DecodeId | client/src/client/client.rs:84-89 | the id, or the error message, or a panic on an empty body |
| Client.DecodeIds | client/src/client/client.rs:108-115 | the two ids, or the error message, or a panic on an empty body |
| Client.DecodeStats | client/src/client/client.rs:206-214 | the statistics, or the error message, or a panic on an empty body |
| Client.DecodeEntry | client/src/client/client.rs:126-135 | the entry, or the error message, or a panic on a cut payload |
| Client.DecodeValue | client/src/client/client.rs:252-263 | the value, no value for an empty one or a short body, the error message, or a panic |
| Response.ResponseBuilder.Finalize | server/src/server/proto.rs:491-499 | the first four bytes become exactly the body's length; the body is untouched |
| Response.ResponseBuilder.OkEmpty | server/src/server/proto.rs:367-372 | a framed status alone |
| Response.ResponseBuilder.OkU64 | server/src/server/proto.rs:374-380 | a framed id |
| Response.ResponseBuilder.OkU64Pair | server/src/server/proto.rs:382-389 | a framed pair of ids |
| Response.ResponseBuilder.OkEntries | server/src/server/proto.rs:403-417 | a framed list of entries, whatever the buffer held before |
| Response.ResponseBuilder.OkNames | server/src/server/proto.rs:419-465 | a framed list of names or keys |
| Response.ResponseBuilder.OkStats | server/src/server/proto.rs:433-441 | framed statistics |
| Response.ResponseBuilder.OkEntry | server/src/server/proto.rs:391-401 | a framed entry |
| Response.ResponseBuilder.OkBytes | server/src/server/proto.rs:443-451 | a framed value |
| Response.ResponseBuilder.Error | server/src/server/proto.rs:481-489 | a framed error message |
| ReplySpec.EntriesRoundTrip | client/src/client/client.rs:149-167 | the client gets back the entries the server answered with |
| ReplySpec.NamesRoundTrip | client/src/client/client.rs:184-291 | the client gets back the group names and the keys the server answered with |
| ReplySpec.StatsRoundTrip | client/src/client/client.rs:207-211 | the client gets back the statistics |
| ReplySpec.EntryRoundTrip | client/src/client/client.rs:127-135 | the client gets back the entry |
| ReplySpec.IdRoundTrip | client/src/client/client.rs:70-89 | the client gets back the id, and a bare status as done |
| ReplySpec.IdsRoundTrip | client/src/client/client.rs:92-115 | the client gets back the first and the last id, in that order |
| ReplySpec.NotOkFails | client/src/client/client.rs:58-312 | a response whose status is not 0 is a failure to all nine kinds of call, with the message extracted from it; never a value, an empty list or a done command |
| ReplySpec.ErrorsReach | client/src/client/client.rs:58-440 | all nine kinds of call fail with just the message the server sent, as long as it is not empty and fits 16 bits |
| ReplySpec.ShortReplies | client/src/client/client.rs:58-312 | what each call makes of an empty response, and of an OK one too short for what was asked |
| ReplySpec.EntryGotIff | client/src/client/client.rs:118-135 | a read hands out an entry if and only if the response begins as the server begins one with that entry |
| ReplySpec.EntriesGotOnly | client/src/client/client.rs:138-167 | a range read hands out only what the server put into the response, all of it and in order |
| ReplySpec.ValueRoundTripIff | client/src/client/client.rs:253-263 | a value comes back if and only if it is not empty: an empty one is read as absent |
| ReplySpec.ErrorRoundTripIff | client/src/client/client.rs:430-440 | an error message comes back whole if and only if it is not empty and is at most 65535 bytes long |
| ReplySpec.ErrorComesBackCut | client/src/client/client.rs:430-440 | a non-empty error message comes back cut to its length modulo 65536 |
| ReplySpec.LossyExists | client/src/client/client.rs:430-440 | a replacement function as assumed of the client exists |
| ReplySpec.ResponseFramed | client/src/client/client.rs:39-43 | reading the length and then that many bytes gives the body and nothing of what follows |
| Sync.SyncFrame | server/src/ha.rs:185-194 | base64 of each item in an `HA_SYNC` frame |
| Sync.HandleSync | server/src/server/server.rs:278-284 | parses the frame and decodes each item, failing where an item is not text |
| Sync.SyncRoundTrip | server/src/ha.rs:185-194 | encode, frame, parse, decode: the original list in order |
| Sync.SyncArrivesIff | server/src/ha.rs:185-194 | through the length-prefix decoder the list arrives if and only if its frame is at most 16 MiB, however large it is; above that, and below 4 GiB, the connection is given up |

## Left out

- The method `DB::apply_aof` (server/src/db/db.rs:89-148) is not modelled: its log and list arms build futures that are never awaited, so a synced follower need not equal its leader; the model stops at the decoded list of entries.
- Key-value recovery across a crash: reads and flushes record nothing, lifetimes restart at replay and eviction depends on hash order. `Recording.KvReplaysIff` and `Recording.KvRunReplays` say what a replay under the clocks and orders of the run rebuilds; under those of a restart the key-value store takes part in the confluence theorem and in every life, but is not claimed to be rebuilt.
- Pipeline liveness: the dispatcher stops looking when nothing is runnable and resumes only when a job arrives, so a queued job need not ever run; `PipelineSpec.IdleMeansRunnable` says what is true instead.
- Recovery when a replay is refused a segment it needs: its task panics at the next record for that log and the server does not start (`Recovery.ReplayPanicsIff`); the theorems on recovery assume the segments that are needed.
- Rollback: a job stops at its first error and keeps its earlier effects, and the model says so.
- Database.Database.ListPopRange: a range that ends in bounds but runs backwards panics; the method may then not be called, while the value layer and the replay model the panic.
- A task that panics inside a job keeps its resources for ever; the step system models this by giving it no release step.
- The builder side of a pipeline (`PipelineManager`, server/src/db/pipeline.rs:294-362) and its channels: jobs enter the model when the dispatcher receives them.
- Client list commands: their tags and layout do not match the server's; beyond `Client.ListRequestsMisread` they are not modelled.
- Heartbeat, registration and event buffering in server/src/ha.rs: network calls and timers.
- The channel of events beside the record (`event_tx`) and the file writer task: what is recorded is taken to reach the file in order, up to an end that a crash may lose or tear.
- Malformed text: the replacement function is a parameter that leaves text as it is and puts at most three bytes where cutting text short cuts a character.
- JSON: a line of the file is blank, corrupt or an entry, part of a line or two entries run together are not an entry, and a synced item is a byte string.
- TCP, tokio, HTTP handlers, router, pools, configuration and error texts.
- Real allocation, alignment and `Drop`: a segment is an array of bytes, and the list pool's own allocation, which panics on failure, is taken to succeed.
- `WriteLockUnavailable` of the log: the lock is only ever tried by the holder of the log itself, so the arm is dead.
- Capacity reservations: `Vec::with_capacity` on a huge count or range can exhaust memory before the loop starts, and is not modelled.
- Machine widths: expiry times and clock sums are unbounded integers; log ids cannot reach the 64-bit limit and holder counters never exceed 1, which is proved; `read_range` is modelled for `start <= end` other than the whole range from 0 to the largest 64-bit number, so that the width does not wrap.
- KvStore.KvStore.Set: the named databases are values in a map rather than objects of their own, because nothing else ever refers to one.
- Lru.LRU.Insert: with capacity 0, which never evicts, the number of slots is taken to stay below the sentinel index.
- Response.ResponseBuilder.OkNames: stands for `ok_group_list` and `ok_string_list`, which write the same bytes; `ok_bytes_list` answers list requests only.
