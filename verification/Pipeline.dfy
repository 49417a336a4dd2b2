/** The pipeline's parts as they are built: holder counters, the queue, and the loop that runs a job. */
module Pipeline {
  import opened Bytes
  import opened DbSpec
  import opened JobSpec
  import opened PipelineSpec
  import Aof
  import Database

  /** Keeps the first occurrence of each resource. */
  method Distinct(commands: seq<Command>) returns (rs: seq<Resource>)
    ensures rs == UniqueResources(commands)
    ensures NoDup(rs) && forall r :: r in rs <==> Uses(commands, r)
  {
    var seen: set<Resource> := {};
    rs := [];
    for i := 0 to |commands|
      invariant rs == UniqueResources(commands[..i]) && forall r :: r in seen <==> r in rs
    {
      assert commands[..i + 1][..i] == commands[..i];
      var r := Target(commands[i]);
      if r !in seen {
        seen := seen + {r};
        rs := rs + [r];
      }
    }
    assert commands[..|commands|] == commands;
    UniqueResourcesAre(commands);
  }

  class LockState {
    var kvHolders: nat
    var listHolders: nat
    var logHolders: nat

    ghost function View(): Locks
      reads this
    {
      Locks(kvHolders, listHolders, logHolders)
    }

    constructor ()
      ensures View() == Locks(0, 0, 0)
    {
      kvHolders, listHolders, logHolders := 0, 0, 0;
    }

    /** The first loop is a special case of the second: the answer is whether nobody holds what is asked for. */
    method CanAcquire(resources: seq<Resource>) returns (ok: bool)
      ensures ok == PipelineSpec.CanAcquire(View(), resources)
    {
      for i := 0 to |resources| {
        if resources[i] == Aof.OfKv {
          if (kvHolders > 0 && Aof.OfList in resources) || (kvHolders > 0 && Aof.OfLog in resources) {
            assert View().Held(resources[i]) > 0;
            return false;
          }
        }
      }
      for i := 0 to |resources|
        invariant forall k :: 0 <= k < i ==> View().Held(resources[k]) == 0
      {
        var holders := match resources[i]
          case OfKv => kvHolders
          case OfList => listHolders
          case OfLog => logHolders;
        if holders > 0 {
          assert View().Held(resources[i]) > 0;
          return false;
        }
      }
      return true;
    }

    method Acquire(resources: seq<Resource>)
      modifies this
      ensures View() == Acquired(old(View()), resources)
    {
      for i := 0 to |resources|
        invariant Acquired(View(), resources[i..]) == Acquired(old(View()), resources)
      {
        match resources[i]
        case OfKv => kvHolders := kvHolders + 1;
        case OfList => listHolders := listHolders + 1;
        case OfLog => logHolders := logHolders + 1;
      }
    }

    method Release(resources: seq<Resource>)
      modifies this
      ensures View() == Released(old(View()), resources)
    {
      for i := 0 to |resources|
        invariant Released(View(), resources[i..]) == Released(old(View()), resources)
      {
        match resources[i]
        case OfKv => kvHolders := Less(kvHolders);
        case OfList => listHolders := Less(listHolders);
        case OfLog => logHolders := Less(logHolders);
      }
    }
  }

  class LockManager {
    const state: LockState
    var queue: seq<Ticket>

    constructor ()
      ensures queue == [] && state.View() == Locks(0, 0, 0) && fresh(state)
    {
      state := new LockState();
      queue := [];
    }

    /** Places a job after those with as few commands, ahead of those with more. */
    method Enqueue(job: Job)
      modifies this
      ensures queue == Enqueued(old(queue), TicketFor(job))
    {
      var resources := Distinct(job.commands);
      var queued := Ticket(|job.commands|, resources, job, NotRun);
      var pos := 0;
      while pos < |queue| && queue[pos].opCount <= queued.opCount
        invariant pos <= |queue| && pos + Slot(queue[pos..], queued.opCount) == Slot(queue, queued.opCount)
      {
        assert queue[pos..][1..] == queue[pos + 1..];
        pos := pos + 1;
      }
      queue := queue[..pos] + [queued] + queue[pos..];
    }

    /** Takes the first runnable job off the queue, if there is one. */
    method TryPopRunnable() returns (r: Option<Ticket>)
      modifies this
      ensures var p := FirstRunnable(old(queue), state.View());
              if p < |old(queue)| then r == Some(old(queue)[p]) && queue == RemoveAt(old(queue), p)
              else r == None && queue == old(queue)
    {
      var pos := 0;
      while pos < |queue|
        invariant pos <= |queue| && queue == old(queue)
        invariant pos + FirstRunnable(queue[pos..], state.View()) == FirstRunnable(queue, state.View())
      {
        var ok := state.CanAcquire(queue[pos].resources);
        if ok {
          r := Some(queue[pos]);
          queue := queue[..pos] + queue[pos + 1..];
          return;
        }
        assert queue[pos..][1..] == queue[pos + 1..];
        pos := pos + 1;
      }
      return None;
    }

    /** One attempt of the loop in `acquire`: takes the resources if all of them are free. */
    method TryAcquire(resources: seq<Resource>) returns (done: bool)
      modifies state
      ensures done == PipelineSpec.CanAcquire(old(state.View()), resources)
      ensures state.View() == if done then Acquired(old(state.View()), resources) else old(state.View())
    {
      done := state.CanAcquire(resources);
      if done {
        state.Acquire(resources);
      }
    }

    method Release(resources: seq<Resource>)
      modifies state
      ensures state.View() == Released(old(state.View()), resources)
    {
      state.Release(resources);
    }
  }

  /** Runs one command on the database. */
  method RunCommand(db: Database.Database, cmd: PipelineCommand, now: int) returns (failure: Option<DbError>)
    requires db.Valid()
    modifies db.Footprint()
    ensures db.Valid() && fresh(db.Footprint() - old(db.Footprint()))
    ensures db.View() == After(old(db.View()), cmd) && failure == Error(old(db.View()), cmd)
  {
    hide Database.Database.Valid, Database.Database.View, LogReply, LogsAfter, ListsAfter, KvAfter, Recorded;
    match cmd {
      case SetKey(d, k, v, ttl, at, used, order) =>
        db.KvSet(d, k, v, ttl, at, used, order);
        return None;
      case DelKey(d, k) =>
        var r := db.KvDel(d, k);
        return if r.Err? then Some(r.error) else None;
      case FlushDb(d) =>
        db.KvFlush(d);
        return None;
      case Push(k, p) =>
        var r := db.ListPush(k, p);
        return if r.Err? then Some(r.error) else None;
      case Pop(k) =>
        var r := db.ListPop(k);
        return if r.Err? then Some(r.error) else None;
      case FlushList(k) =>
        var r := db.ListFlush(k);
        return if r.Err? then Some(r.error) else None;
      case Add(n, rec, alloc) =>
        var r := db.LogAdd(n, rec, alloc, now);
        return if r.Refused? then Some(LogFailed(r.error)) else None;
    }
  }

  /** Runs a job's commands in order, stopping at the first that fails. */
  method ExecuteJob(db: Database.Database, commands: seq<Command>, clock: nat -> int) returns (outcome: Outcome)
    requires db.Valid() && forall i :: 0 <= i < |commands| ==> InPipeline(commands[i])
    modifies db.Footprint()
    ensures db.Valid() && fresh(db.Footprint() - old(db.Footprint()))
    ensures db.View() == JobSpec.Execute(old(db.View()), commands) && outcome == OutcomeOf(old(db.View()), commands)
  {
    hide Database.Database.Valid, Database.Database.View, After, Error, InPipeline;
    ghost var was := db.View();
    assert commands[0..] == commands;
    for i := 0 to |commands|
      invariant db.Valid() && fresh(db.Footprint() - old(db.Footprint()))
      invariant JobSpec.Execute(db.View(), commands[i..]) == JobSpec.Execute(was, commands)
      invariant OutcomeOf(db.View(), commands[i..]) == OutcomeOf(was, commands)
    {
      assert commands[i..][0] == commands[i] && commands[i..][1..] == commands[i + 1..];
      var failure := RunCommand(db, commands[i], clock(i));
      if failure.Some? {
        return Failed(failure.value);
      }
    }
    return Succeeded;
  }
}
