/** The pipeline's lock manager and dispatcher, as steps that may interleave in any way. */
module PipelineSpec {
  import opened Bytes
  import opened DbSpec
  import opened JobSpec
  import R = Recovery
  import G = GroupSpec

  // ---- holder counters ----

  datatype Locks = Locks(kv: nat, list: nat, log: nat) {
    function Held(r: Resource): nat {
      match r
      case OfKv => kv
      case OfList => list
      case OfLog => log
    }

    function With(r: Resource, n: nat): Locks {
      match r
      case OfKv => this.(kv := n)
      case OfList => this.(list := n)
      case OfLog => this.(log := n)
    }
  }

  predicate CanAcquire(l: Locks, rs: seq<Resource>) {
    forall r :: r in rs ==> l.Held(r) == 0
  }

  function Acquired(l: Locks, rs: seq<Resource>): Locks
    decreases |rs|
  {
    if rs == [] then l else Acquired(l.With(rs[0], l.Held(rs[0]) + 1), rs[1..])
  }

  /** Subtraction stops at zero. */
  function Less(n: nat): nat {
    if n == 0 then 0 else n - 1
  }

  function Released(l: Locks, rs: seq<Resource>): Locks
    decreases |rs|
  {
    if rs == [] then l else Released(l.With(rs[0], Less(l.Held(rs[0]))), rs[1..])
  }

  lemma {:induction false} AcquiredAre(l: Locks, rs: seq<Resource>, r: Resource)
    requires NoDup(rs)
    ensures Acquired(l, rs).Held(r) == l.Held(r) + if r in rs then 1 else 0
    decreases |rs|
  {
    if rs != [] {
      AcquiredAre(l.With(rs[0], l.Held(rs[0]) + 1), rs[1..], r);
    }
  }

  lemma {:induction false} ReleasedAre(l: Locks, rs: seq<Resource>, r: Resource)
    requires NoDup(rs)
    ensures Released(l, rs).Held(r) == if r in rs then Less(l.Held(r)) else l.Held(r)
    decreases |rs|
  {
    if rs != [] {
      ReleasedAre(l.With(rs[0], Less(l.Held(rs[0]))), rs[1..], r);
    }
  }

  // ---- the queue ----

  /** A job on its way through the pipeline, with its outcome once it has run. */
  datatype Ticket = Ticket(opCount: nat, resources: seq<Resource>, job: Job, outcome: Outcome)

  function TicketFor(job: Job): Ticket {
    Ticket(|job.commands|, UniqueResources(job.commands), job, NotRun)
  }

  /** Where the run of tickets with at most `n` commands ends. */
  function Slot(q: seq<Ticket>, n: nat): (p: nat)
    ensures p <= |q|
    ensures forall i :: 0 <= i < p ==> q[i].opCount <= n
    ensures p < |q| ==> q[p].opCount > n
  {
    if q == [] || q[0].opCount > n then 0 else 1 + Slot(q[1..], n)
  }

  function Enqueued(q: seq<Ticket>, t: Ticket): seq<Ticket> {
    q[..Slot(q, t.opCount)] + [t] + q[Slot(q, t.opCount)..]
  }

  /** The first ticket that can acquire all it needs; the queue's length when there is none. */
  function FirstRunnable(q: seq<Ticket>, l: Locks): (p: nat)
    ensures p <= |q|
    ensures forall i :: 0 <= i < p ==> !CanAcquire(l, q[i].resources)
    ensures p < |q| ==> CanAcquire(l, q[p].resources)
  {
    if q == [] || CanAcquire(l, q[0].resources) then 0 else 1 + FirstRunnable(q[1..], l)
  }

  function RemoveAt(q: seq<Ticket>, i: nat): seq<Ticket>
    requires i < |q|
  {
    q[..i] + q[i + 1..]
  }

  /** Fewest commands first, and among equals the first to arrive. */
  predicate Before(a: Ticket, b: Ticket) {
    a.opCount < b.opCount || (a.opCount == b.opCount && a.job.id < b.job.id)
  }

  ghost predicate Sorted(q: seq<Ticket>) {
    forall i, j :: 0 <= i < j < |q| ==> Before(q[i], q[j])
  }

  lemma EnqueuedSorted(q: seq<Ticket>, t: Ticket)
    requires Sorted(q) && forall i :: 0 <= i < |q| ==> q[i].job.id < t.job.id
    ensures Sorted(Enqueued(q, t))
  {
    var p, e := Slot(q, t.opCount), Enqueued(q, t);
    assert forall i :: 0 <= i < |e| ==> e[i] == if i < p then q[i] else if i == p then t else q[i - 1];
    forall i, j | 0 <= i < j < |e| ensures Before(e[i], e[j]) {
      if i == p {
        assert q[p].opCount > t.opCount;
        assert j - 1 > p ==> Before(q[p], q[j - 1]);
      }
    }
  }

  /** What is popped comes before every other runnable ticket, and the others keep their order. */
  lemma PopTakesLeast(q: seq<Ticket>, l: Locks)
    requires Sorted(q) && FirstRunnable(q, l) < |q|
    ensures var p := FirstRunnable(q, l);
            && CanAcquire(l, q[p].resources)
            && (forall i :: 0 <= i < |q| && i != p && CanAcquire(l, q[i].resources) ==> Before(q[p], q[i]))
            && RemoveAt(q, p) == q[..p] + q[p + 1..] && Sorted(RemoveAt(q, p))
  {
    var p := FirstRunnable(q, l);
    var e := RemoveAt(q, p);
    assert forall i :: 0 <= i < |e| ==> e[i] == if i < p then q[i] else q[i + 1];
  }

  // ---- what is where ----

  /** The jobs of the tickets that satisfy `keep`. */
  ghost function Bag(ts: seq<Ticket>, keep: Ticket -> bool): multiset<Job> {
    if ts == [] then multiset{} else One(ts[0], keep) + Bag(ts[1..], keep)
  }

  ghost function One(t: Ticket, keep: Ticket -> bool): multiset<Job> {
    if keep(t) then multiset{t.job} else multiset{}
  }

  lemma {:induction false} BagAppend(a: seq<Ticket>, b: seq<Ticket>, keep: Ticket -> bool)
    ensures Bag(a + b, keep) == Bag(a, keep) + Bag(b, keep)
    decreases |a|
  {
    hide One;
    if a == [] {
      assert a + b == b;
    } else {
      BagAppend(a[1..], b, keep);
      assert (a + b)[1..] == a[1..] + b;
      var first, rest := One(a[0], keep), Bag(a[1..], keep);
      assert Bag(a + b, keep) == first + Bag(a[1..] + b, keep) && Bag(a, keep) == first + rest;
      hide Bag;
      assert first + (rest + Bag(b, keep)) == first + rest + Bag(b, keep);
    }
  }

  lemma BagAdd(ts: seq<Ticket>, t: Ticket, keep: Ticket -> bool)
    ensures Bag(ts + [t], keep) == Bag(ts, keep) + One(t, keep)
  {
    BagAppend(ts, [t], keep);
    assert Bag([t], keep) == One(t, keep);
  }

  lemma BagInsert(a: seq<Ticket>, t: Ticket, b: seq<Ticket>, keep: Ticket -> bool)
    ensures Bag(a + [t] + b, keep) == Bag(a + b, keep) + One(t, keep)
  {
    hide Bag, One;
    BagAppend(a + [t], b, keep);
    BagAdd(a, t, keep);
    BagAppend(a, b, keep);
  }

  lemma BagRemove(ts: seq<Ticket>, i: nat, keep: Ticket -> bool)
    requires i < |ts|
    ensures Bag(ts, keep) == Bag(RemoveAt(ts, i), keep) + One(ts[i], keep)
  {
    hide Bag, One;
    assert ts == ts[..i] + [ts[i]] + ts[i + 1..];
    BagInsert(ts[..i], ts[i], ts[i + 1..], keep);
  }

  lemma BagUpdate(ts: seq<Ticket>, i: nat, t: Ticket, keep: Ticket -> bool)
    requires i < |ts|
    ensures Bag(ts[i := t], keep) == Bag(RemoveAt(ts, i), keep) + One(t, keep)
  {
    hide Bag, One;
    assert ts[i := t] == ts[..i] + [t] + ts[i + 1..];
    BagInsert(ts[..i], t, ts[i + 1..], keep);
  }

  lemma {:induction false} BagMember(ts: seq<Ticket>, i: nat, keep: Ticket -> bool)
    requires i < |ts| && keep(ts[i])
    ensures ts[i].job in Bag(ts, keep)
  {
    BagRemove(ts, i, keep);
  }

  predicate Any(t: Ticket) {
    true
  }

  predicate HasRun(t: Ticket) {
    !t.outcome.NotRun?
  }

  function Wants(r: Resource): Ticket -> bool {
    (t: Ticket) => r in t.resources
  }

  // ---- the system ----

  /** `arrived` and `ran` are histories: the jobs in order of arrival, and in the order in which they ran. Another
      client's operation counts as a job of one command that runs as it arrives. */
  datatype System = System(
    arrived: seq<Job>,
    queue: seq<Ticket>,
    waiting: seq<Ticket>,
    held: seq<Ticket>,
    finished: seq<Ticket>,
    locks: Locks,
    ran: seq<Job>,
    db: Db)

  function Initial(db: Db): System {
    System([], [], [], [], [], Locks(0, 0, 0), [], db)
  }

  datatype Step =
    /** The dispatcher receives a job and queues it. */
    | Arrive(commands: seq<PipelineCommand>)
    /** The dispatcher takes a runnable job off the queue and starts a task for it. */
    | PopRunnable
    /** A task finds its resources free and takes them. */
    | Acquire(task: nat)
    /** A task that holds its resources runs its job. */
    | Execute(task: nat)
    /** A task that has run its job gives its resources back. */
    | Release(task: nat)
    /** Another client's operation runs; it takes the database, but none of the pipeline's resources. */
    | Other(op: DbOp)

  /** A task that panics never gets to release. */
  predicate Crashed(t: Ticket) {
    t.outcome == Failed(LogFailed(G.Crashed)) || t.outcome == Failed(ListPanicked)
  }

  predicate Enabled(s: System, step: Step) {
    match step
    case Arrive(_) => true
    case PopRunnable => FirstRunnable(s.queue, s.locks) < |s.queue|
    case Acquire(i) => i < |s.waiting| && CanAcquire(s.locks, s.waiting[i].resources)
    case Execute(i) => i < |s.held| && !HasRun(s.held[i])
    case Release(i) => i < |s.held| && HasRun(s.held[i]) && !Crashed(s.held[i])
    case Other(_) => true
  }

  function Next(s: System, step: Step): System
    requires Enabled(s, step)
  {
    match step
    case Arrive(cmds) =>
      var job := Job(|s.arrived|, cmds);
      s.(arrived := s.arrived + [job], queue := Enqueued(s.queue, TicketFor(job)))
    case PopRunnable =>
      var p := FirstRunnable(s.queue, s.locks);
      s.(queue := RemoveAt(s.queue, p), waiting := s.waiting + [s.queue[p]])
    case Acquire(i) =>
      var t := s.waiting[i];
      s.(waiting := RemoveAt(s.waiting, i), held := s.held + [t], locks := Acquired(s.locks, t.resources))
    case Execute(i) =>
      var t := s.held[i];
      s.(held := s.held[i := t.(outcome := OutcomeOf(s.db, t.job.commands))],
         ran := s.ran + [t.job], db := JobSpec.Execute(s.db, t.job.commands))
    case Release(i) =>
      var t := s.held[i];
      s.(held := RemoveAt(s.held, i), finished := s.finished + [t], locks := Released(s.locks, t.resources))
    case Other(op) =>
      var job := Job(|s.arrived|, [op]);
      s.(arrived := s.arrived + [job], finished := s.finished + [TicketFor(job).(outcome := OutcomeOf(s.db, [op]))],
         ran := s.ran + [job], db := JobSpec.Execute(s.db, [op]))
  }

  // ---- every ticket is in order ----

  ghost predicate Proper(ts: seq<Ticket>) {
    forall i :: 0 <= i < |ts| ==> ts[i].opCount == |ts[i].job.commands| && ts[i].resources == UniqueResources(ts[i].job.commands)
  }

  ghost predicate Tickets(s: System) {
    && Proper(s.queue) && Proper(s.waiting) && Proper(s.held) && Proper(s.finished)
    && (forall i :: 0 <= i < |s.queue| ==> !HasRun(s.queue[i]))
    && (forall i :: 0 <= i < |s.waiting| ==> !HasRun(s.waiting[i]))
    && (forall i :: 0 <= i < |s.finished| ==> HasRun(s.finished[i]))
  }

  lemma EnqueuedAre(q: seq<Ticket>, t: Ticket)
    ensures forall i :: 0 <= i < |Enqueued(q, t)| ==> Enqueued(q, t)[i] in q || Enqueued(q, t)[i] == t
  {
  }

  lemma RemovedAre(q: seq<Ticket>, p: nat)
    requires p < |q|
    ensures forall i :: 0 <= i < |RemoveAt(q, p)| ==> RemoveAt(q, p)[i] in q
  {
  }

  lemma TicketsStep(s: System, step: Step)
    requires Tickets(s) && Enabled(s, step)
    ensures Tickets(Next(s, step))
  {
    hide UniqueResources, CanAcquire, JobSpec.Execute, OutcomeOf, Acquired, Released, Enqueued, RemoveAt, FirstRunnable;
    match step
    case Arrive(cmds) => EnqueuedAre(s.queue, TicketFor(Job(|s.arrived|, cmds)));
    case PopRunnable => RemovedAre(s.queue, FirstRunnable(s.queue, s.locks));
    case Acquire(i) => RemovedAre(s.waiting, i);
    case Release(i) => RemovedAre(s.held, i);
    case _ =>
  }

  // ---- the counters ----

  /** Each counter is the number of tasks that hold the resource, and that is at most one. */
  ghost predicate Counted(s: System) {
    forall r :: s.locks.Held(r) == |Bag(s.held, Wants(r))| <= 1
  }

  lemma ResourcesDistinct(ts: seq<Ticket>, i: nat)
    requires Proper(ts) && i < |ts|
    ensures NoDup(ts[i].resources)
  {
    UniqueResourcesAre(ts[i].job.commands);
  }

  lemma CountedStep(s: System, step: Step, r: Resource)
    requires Tickets(s) && Counted(s) && Enabled(s, step)
    ensures var s' := Next(s, step); s'.locks.Held(r) == |Bag(s'.held, Wants(r))| <= 1
  {
    hide UniqueResources, JobSpec.Execute, OutcomeOf, Acquired, Released, Bag, Slot, FirstRunnable, NoDup;
    assert s.locks.Held(r) == |Bag(s.held, Wants(r))|;
    match step
    case Acquire(i) =>
      ResourcesDistinct(s.waiting, i);
      AcquiredAre(s.locks, s.waiting[i].resources, r);
      BagAdd(s.held, s.waiting[i], Wants(r));
    case Execute(i) =>
      BagUpdate(s.held, i, Next(s, step).held[i], Wants(r));
      BagRemove(s.held, i, Wants(r));
    case Release(i) =>
      ResourcesDistinct(s.held, i);
      ReleasedAre(s.locks, s.held[i].resources, r);
      BagRemove(s.held, i, Wants(r));
    case _ =>
  }

  // ---- no job is lost, and none runs twice ----

  /** Every job that has arrived is in exactly one place. */
  ghost predicate Kept(s: System) {
    && Bag(s.queue, Any) + Bag(s.waiting, Any) + Bag(s.held, Any) + Bag(s.finished, Any) == multiset(s.arrived)
    && forall i :: 0 <= i < |s.arrived| ==> s.arrived[i].id == i
  }

  lemma KeptArrival(s: System, cmds: seq<PipelineCommand>)
    requires Kept(s)
    ensures Kept(Next(s, Arrive(cmds)))
  {
    hide UniqueResources, Bag, Slot;
    var t := TicketFor(Job(|s.arrived|, cmds));
    var p := Slot(s.queue, t.opCount);
    BagInsert(s.queue[..p], t, s.queue[p..], Any);
    assert s.queue[..p] + s.queue[p..] == s.queue;
  }

  lemma OneOfAny(t: Ticket, u: Ticket)
    requires t.job == u.job
    ensures One(t, Any) == One(u, Any)
  {
  }

  lemma KeptStep(s: System, step: Step)
    requires Kept(s) && Enabled(s, step)
    ensures Kept(Next(s, step))
  {
    hide UniqueResources, CanAcquire, JobSpec.Execute, OutcomeOf, Acquired, Released, Bag, FirstRunnable, Enqueued, RemoveAt, One;
    match step
    case Arrive(cmds) => KeptArrival(s, cmds);
    case PopRunnable =>
      var p := FirstRunnable(s.queue, s.locks);
      BagRemove(s.queue, p, Any);
      BagAdd(s.waiting, s.queue[p], Any);
    case Acquire(i) =>
      BagRemove(s.waiting, i, Any);
      BagAdd(s.held, s.waiting[i], Any);
    case Execute(i) =>
      BagUpdate(s.held, i, Next(s, step).held[i], Any);
      BagRemove(s.held, i, Any);
      OneOfAny(s.held[i], Next(s, step).held[i]);
    case Release(i) =>
      BagRemove(s.held, i, Any);
      BagAdd(s.finished, s.held[i], Any);
    case Other(op) => KeptOther(s, op);
  }

  lemma KeptOther(s: System, op: Command)
    requires Kept(s)
    ensures Kept(Next(s, Other(op)))
  {
    hide UniqueResources, JobSpec.Execute, Bag;
    var t := Next(s, Other(op)).finished[|s.finished|];
    BagAdd(s.finished, t, Any);
  }

  /** The jobs that ran are those whose tickets say so. */
  ghost predicate RanAre(s: System) {
    multiset(s.ran) == Bag(s.held, HasRun) + Bag(s.finished, HasRun)
  }

  lemma RanAreStep(s: System, step: Step)
    requires Tickets(s) && RanAre(s) && Enabled(s, step)
    ensures RanAre(Next(s, step))
  {
    hide UniqueResources, CanAcquire, JobSpec.Execute, OutcomeOf, Acquired, Released, Bag, FirstRunnable, Enqueued, RemoveAt;
    match step
    case Acquire(i) => BagAdd(s.held, s.waiting[i], HasRun);
    case Execute(i) => RanExecuted(s, i);
    case Release(i) =>
      BagRemove(s.held, i, HasRun);
      BagAdd(s.finished, s.held[i], HasRun);
    case Other(op) => BagAdd(s.finished, Next(s, step).finished[|s.finished|], HasRun);
    case _ =>
  }

  lemma RanExecuted(s: System, i: nat)
    requires RanAre(s) && Enabled(s, Execute(i))
    ensures RanAre(Next(s, Execute(i)))
  {
    hide UniqueResources, CanAcquire, JobSpec.Execute, OutcomeOf, Bag;
    BagUpdate(s.held, i, Next(s, Execute(i)).held[i], HasRun);
    BagRemove(s.held, i, HasRun);
  }

  lemma {:induction false} BagWithin(ts: seq<Ticket>)
    ensures Bag(ts, HasRun) <= Bag(ts, Any)
    decreases |ts|
  {
    if ts != [] {
      BagWithin(ts[1..]);
    }
  }

  /** Jobs that arrived one after the other, taken at most once each, have different ids. */
  lemma TakenOnce(jobs: seq<Job>, arrived: seq<Job>)
    requires multiset(jobs) <= multiset(arrived) && forall i :: 0 <= i < |arrived| ==> arrived[i].id == i
    ensures DistinctIds(jobs) && forall j :: 0 <= j < |jobs| ==> jobs[j].id < |arrived| && jobs[j] == arrived[jobs[j].id]
  {
    forall j | 0 <= j < |jobs| ensures jobs[j].id < |arrived| && jobs[j] == arrived[jobs[j].id] {
      assert jobs[j] in multiset(jobs);
      assert jobs[j] in multiset(arrived);
    }
    forall i, j | 0 <= i < j < |jobs| ensures jobs[i].id != jobs[j].id {
      CountOne(arrived, jobs[i]);
      if jobs[i] == jobs[j] {
        CountTwo(jobs, i, j);
      }
    }
  }

  /** What has run has run once, and had arrived. */
  lemma RanOnce(s: System)
    requires Kept(s) && RanAre(s)
    ensures DistinctIds(s.ran) && forall j :: 0 <= j < |s.ran| ==> s.ran[j] in s.arrived
  {
    BagWithin(s.held);
    BagWithin(s.finished);
    TakenOnce(s.ran, s.arrived);
  }

  lemma RanArrived(s: System)
    requires Kept(s) && RanAre(s)
    ensures forall j :: 0 <= j < |s.ran| ==> s.ran[j].id < |s.arrived|
  {
    BagWithin(s.held);
    BagWithin(s.finished);
    TakenOnce(s.ran, s.arrived);
  }

  // ---- the queue stays in order ----

  lemma QueuedArrived(s: System, i: nat)
    requires Kept(s) && i < |s.queue|
    ensures s.queue[i].job.id < |s.arrived|
  {
    BagMember(s.queue, i, Any);
    hide Bag;
    assert s.queue[i].job in multiset(s.arrived);
  }

  lemma SortedStep(s: System, step: Step)
    requires Kept(s) && Sorted(s.queue) && Enabled(s, step)
    ensures Sorted(Next(s, step).queue)
  {
    hide UniqueResources, CanAcquire, JobSpec.Execute, OutcomeOf, Acquired, Released, Bag, FirstRunnable, Slot, Sorted, Kept;
    match step
    case Arrive(cmds) =>
      forall i | 0 <= i < |s.queue| ensures s.queue[i].job.id < |s.arrived| {
        QueuedArrived(s, i);
      }
      EnqueuedSorted(s.queue, TicketFor(Job(|s.arrived|, cmds)));
    case PopRunnable => PopTakesLeast(s.queue, s.locks);
    case _ =>
  }

  // ---- the database is that of the jobs run one after the other ----

  ghost predicate Told(ts: seq<Ticket>, outcomes: map<nat, Outcome>) {
    forall i :: 0 <= i < |ts| && HasRun(ts[i]) ==> ts[i].job.id in outcomes && ts[i].outcome == outcomes[ts[i].job.id]
  }

  /** The database, and what each job is told, are those of running `ran` in order, one job at a time. */
  ghost predicate Serial(s: System, db: Db) {
    && s.db == RunJobs(db, s.ran)
    && Told(s.held, Outcomes(db, s.ran)) && Told(s.finished, Outcomes(db, s.ran))
  }

  lemma {:induction false} RunLast(db: Db, jobs: seq<Job>, x: Job)
    requires forall j :: 0 <= j < |jobs| ==> jobs[j].id != x.id
    ensures RunJobs(db, jobs + [x]) == JobSpec.Execute(RunJobs(db, jobs), x.commands)
    ensures Outcomes(db, jobs + [x]) == Outcomes(db, jobs)[x.id := OutcomeOf(RunJobs(db, jobs), x.commands)]
    decreases |jobs|
  {
    hide JobSpec.Execute, OutcomeOf;
    if jobs == [] {
      assert jobs + [x] == [x];
    } else {
      RunLast(JobSpec.Execute(db, jobs[0].commands), jobs[1..], x);
      assert (jobs + [x])[1..] == jobs[1..] + [x];
    }
  }

  /** A job about to run is not among those that ran. */
  lemma NotYetRun(s: System, i: nat)
    requires Kept(s) && RanAre(s) && i < |s.held| && !HasRun(s.held[i])
    ensures DistinctIds(s.ran + [s.held[i].job])
  {
    var x := s.held[i].job;
    BagRemove(s.held, i, Any);
    BagRemove(s.held, i, HasRun);
    BagWithin(RemoveAt(s.held, i));
    BagWithin(s.finished);
    hide Bag;
    assert multiset(s.ran + [x]) == multiset(s.ran) + multiset{x};
    TakenOnce(s.ran + [x], s.arrived);
  }

  lemma RanListed(ts: seq<Ticket>, ran: seq<Job>, i: nat)
    requires Bag(ts, HasRun) <= multiset(ran) && i < |ts| && HasRun(ts[i])
    ensures exists j :: 0 <= j < |ran| && ran[j] == ts[i].job
  {
    BagMember(ts, i, HasRun);
    assert ts[i].job in multiset(ran);
  }

  /** Running one more job leaves what the others were told. */
  lemma ToldStays(ts: seq<Ticket>, ran: seq<Job>, x: Job, outcomes: map<nat, Outcome>, o: Outcome)
    requires Told(ts, outcomes) && Bag(ts, HasRun) <= multiset(ran) && forall j :: 0 <= j < |ran| ==> ran[j].id != x.id
    ensures Told(ts, outcomes[x.id := o])
  {
    forall i | 0 <= i < |ts| && HasRun(ts[i]) ensures ts[i].job.id != x.id {
      RanListed(ts, ran, i);
    }
  }

  /** One more job has run: the database and the earlier outcomes are those of the longer history. */
  lemma SerialRan(s: System, db: Db, x: Job)
    requires RanAre(s) && Serial(s, db) && forall j :: 0 <= j < |s.ran| ==> s.ran[j].id != x.id
    ensures JobSpec.Execute(s.db, x.commands) == RunJobs(db, s.ran + [x])
    ensures var outcomes := Outcomes(db, s.ran + [x]);
            && x.id in outcomes && outcomes[x.id] == OutcomeOf(s.db, x.commands)
            && Told(s.held, outcomes) && Told(s.finished, outcomes)
  {
    hide JobSpec.Execute, OutcomeOf, Bag, RunJobs, Outcomes;
    RunLast(db, s.ran, x);
    var o := OutcomeOf(s.db, x.commands);
    ToldStays(s.held, s.ran, x, Outcomes(db, s.ran), o);
    ToldStays(s.finished, s.ran, x, Outcomes(db, s.ran), o);
  }

  lemma SerialStep(s: System, step: Step, db: Db)
    requires Tickets(s) && Kept(s) && RanAre(s) && Serial(s, db) && Enabled(s, step)
    ensures Serial(Next(s, step), db)
  {
    hide UniqueResources, CanAcquire, JobSpec.Execute, OutcomeOf, Acquired, Released, Bag, FirstRunnable, RunJobs, Outcomes, Kept;
    hide Enqueued;
    if step.Execute? {
      var x := s.held[step.task].job;
      NotYetRun(s, step.task);
      forall j | 0 <= j < |s.ran| ensures s.ran[j].id != x.id {
        assert (s.ran + [x])[j] == s.ran[j] && (s.ran + [x])[|s.ran|] == x;
      }
      SerialRan(s, db, x);
    } else if step.Other? {
      RanArrived(s);
      SerialRan(s, db, Job(|s.arrived|, [step.op]));
    }
  }

  // ---- every run ----

  ghost predicate Inv(s: System, db: Db) {
    Tickets(s) && Counted(s) && Kept(s) && RanAre(s) && Sorted(s.queue) && Serial(s, db)
  }

  lemma InvStep(s: System, step: Step, db: Db)
    requires Inv(s, db) && Enabled(s, step)
    ensures Inv(Next(s, step), db)
  {
    hide Tickets, Kept, RanAre, Sorted, Serial, Next, Enabled, Bag;
    TicketsStep(s, step);
    forall r ensures var s' := Next(s, step); s'.locks.Held(r) == |Bag(s'.held, Wants(r))| <= 1 {
      CountedStep(s, step, r);
    }
    KeptStep(s, step);
    RanAreStep(s, step);
    SortedStep(s, step);
    SerialStep(s, step, db);
  }

  /** The steps can be taken one after the other. */
  predicate Possible(s: System, steps: seq<Step>)
    decreases |steps|
  {
    steps == [] || (Enabled(s, steps[0]) && Possible(Next(s, steps[0]), steps[1..]))
  }

  function Reached(s: System, steps: seq<Step>): System
    requires Possible(s, steps)
    decreases |steps|
  {
    if steps == [] then s else Reached(Next(s, steps[0]), steps[1..])
  }

  lemma {:induction false} ReachedInv(s: System, steps: seq<Step>, db: Db)
    requires Inv(s, db) && Possible(s, steps)
    ensures Inv(Reached(s, steps), db)
    decreases |steps|
  {
    if steps != [] {
      InvStep(s, steps[0], db);
      hide Inv, Enabled, Next;
      ReachedInv(Next(s, steps[0]), steps[1..], db);
    }
  }

  lemma {:induction false} InitialInv(db: Db)
    ensures Inv(Initial(db), db)
  {
    forall r ensures Bag([], Wants(r)) == multiset{} {
    }
    assert Bag([], Any) == multiset{};
  }

  /** No two tasks that hold their resources have one in common. */
  lemma Exclusive(s: System, i: nat, j: nat)
    requires Counted(s) && i < j < |s.held|
    ensures forall r :: !(r in s.held[i].resources && r in s.held[j].resources)
  {
    forall r ensures !(r in s.held[i].resources && r in s.held[j].resources) {
      BagRemove(s.held, j, Wants(r));
      assert RemoveAt(s.held, j)[i] == s.held[i];
      BagRemove(RemoveAt(s.held, j), i, Wants(r));
      assert s.locks.Held(r) <= 1;
    }
  }

  /** Fewest commands first, and among those with as many the first to arrive. */
  ghost predicate InOrder(q: seq<Ticket>) {
    forall i, j :: 0 <= i < j < |q| ==>
      |q[i].job.commands| < |q[j].job.commands|
      || (|q[i].job.commands| == |q[j].job.commands| && q[i].job.id < q[j].job.id)
  }

  lemma SortedInOrder(s: System)
    requires Tickets(s) && Sorted(s.queue)
    ensures InOrder(s.queue)
  {
    hide UniqueResources;
    forall i, j | 0 <= i < j < |s.queue|
      ensures |s.queue[i].job.commands| < |s.queue[j].job.commands|
              || (|s.queue[i].job.commands| == |s.queue[j].job.commands| && s.queue[i].job.id < s.queue[j].job.id) {
      assert Before(s.queue[i], s.queue[j]);
    }
  }

  /** Over every interleaving: the counters count the holders, no two holders share a resource, no job is lost or
      run twice, the queue is in order, and the database is that of the jobs run one at a time. */
  lemma EveryRun(db: Db, steps: seq<Step>)
    requires Possible(Initial(db), steps)
    ensures var s := Reached(Initial(db), steps);
            && (forall r :: s.locks.Held(r) == |Bag(s.held, Wants(r))| <= 1)
            && (forall i, j, r :: 0 <= i < j < |s.held| ==> !(r in s.held[i].resources && r in s.held[j].resources))
            && Kept(s) && RanAre(s) && DistinctIds(s.ran) && InOrder(s.queue) && Serial(s, db)
  {
    hide Possible, Reached, Kept, RanAre, Sorted, InOrder, Serial, Tickets, Bag;
    InitialInv(db);
    ReachedInv(Initial(db), steps, db);
    var s := Reached(Initial(db), steps);
    RanOnce(s);
    SortedInOrder(s);
    forall i, j, r | 0 <= i < j < |s.held| ensures !(r in s.held[i].resources && r in s.held[j].resources) {
      Exclusive(s, i, j);
    }
  }

  /** Subtraction in `release` never stops at zero: what a task gives back, it was counted as holding. */
  lemma ReleaseIsExact(db: Db, steps: seq<Step>, i: nat)
    requires Possible(Initial(db), steps)
    ensures var s := Reached(Initial(db), steps);
            i < |s.held| ==> forall r :: r in s.held[i].resources ==>
              s.locks.Held(r) == 1 && Released(s.locks, s.held[i].resources).Held(r) == 0
  {
    hide Possible, Reached, Kept, RanAre, Sorted, Serial, Bag, Released;
    InitialInv(db);
    ReachedInv(Initial(db), steps, db);
    var s := Reached(Initial(db), steps);
    if i < |s.held| {
      ResourcesDistinct(s.held, i);
      forall r | r in s.held[i].resources ensures s.locks.Held(r) == 1 && Released(s.locks, s.held[i].resources).Held(r) == 0 {
        BagRemove(s.held, i, Wants(r));
        ReleasedAre(s.locks, s.held[i].resources, r);
      }
    }
  }

  lemma {:induction false} BagSome(ts: seq<Ticket>, keep: Ticket -> bool)
    requires Bag(ts, keep) != multiset{}
    ensures exists i :: 0 <= i < |ts| && keep(ts[i])
    decreases |ts|
  {
    if keep(ts[0]) {
      assert 0 <= 0 < |ts|;
    } else {
      BagSome(ts[1..], keep);
      var i :| 0 <= i < |ts[1..]| && keep(ts[1..][i]);
      assert keep(ts[i + 1]);
    }
  }

  /** No job that a task is holding resources for uses a store that `job` uses. */
  ghost predicate Unopposed(s: System, job: Job) {
    forall j, r :: 0 <= j < |s.held| && Uses(job.commands, r) ==> !Uses(s.held[j].job.commands, r)
  }

  lemma AcquirableIff(s: System, t: Ticket)
    requires Tickets(s) && Counted(s) && t.resources == UniqueResources(t.job.commands)
    ensures CanAcquire(s.locks, t.resources) <==> Unopposed(s, t.job)
  {
    hide Bag, UniqueResources, NoDup, Uses;
    UniqueResourcesAre(t.job.commands);
    forall j | 0 <= j < |s.held| ensures forall r :: r in s.held[j].resources <==> Uses(s.held[j].job.commands, r) {
      UniqueResourcesAre(s.held[j].job.commands);
    }
    forall r ensures s.locks.Held(r) == 0 <==> forall j :: 0 <= j < |s.held| ==> r !in s.held[j].resources {
      HolderIff(s, r);
    }
  }

  lemma HolderIff(s: System, r: Resource)
    requires Counted(s)
    ensures s.locks.Held(r) == 0 <==> forall j :: 0 <= j < |s.held| ==> r !in s.held[j].resources
  {
    hide Bag;
    assert s.locks.Held(r) == |Bag(s.held, Wants(r))|;
    if s.locks.Held(r) != 0 {
      BagSome(s.held, Wants(r));
      var i :| 0 <= i < |s.held| && Wants(r)(s.held[i]);
      assert r in s.held[i].resources;
    }
    if j :| 0 <= j < |s.held| && r in s.held[j].resources {
      BagMember(s.held, j, Wants(r));
    }
  }

  /** In every reachable state a waiting task can take its resources, and a queued job is runnable, if and only if no
      store it uses is used by a job that a task is holding resources for. */
  lemma AcquireIff(db: Db, steps: seq<Step>, i: nat)
    requires Possible(Initial(db), steps)
    ensures var s := Reached(Initial(db), steps);
            && (i < |s.waiting| ==> (Enabled(s, Acquire(i)) <==> Unopposed(s, s.waiting[i].job)))
            && (Enabled(s, PopRunnable) <==> exists k :: 0 <= k < |s.queue| && Unopposed(s, s.queue[k].job))
  {
    hide Possible, Reached, Kept, RanAre, Sorted, Serial, CanAcquire, Unopposed, UniqueResources, HasRun;
    InitialInv(db);
    ReachedInv(Initial(db), steps, db);
    var s := Reached(Initial(db), steps);
    if i < |s.waiting| {
      AcquirableIff(s, s.waiting[i]);
    }
    forall k | 0 <= k < |s.queue| ensures CanAcquire(s.locks, s.queue[k].resources) <==> Unopposed(s, s.queue[k].job) {
      AcquirableIff(s, s.queue[k]);
    }
    var p := FirstRunnable(s.queue, s.locks);
    assert p < |s.queue| ==> Unopposed(s, s.queue[p].job);
  }

  /** When no task holds anything, every waiting task and every queued job can acquire all it needs. */
  lemma IdleMeansRunnable(db: Db, steps: seq<Step>)
    requires Possible(Initial(db), steps) && Reached(Initial(db), steps).held == []
    ensures var s := Reached(Initial(db), steps);
            && (forall i :: 0 <= i < |s.waiting| ==> Enabled(s, Acquire(i)))
            && (s.queue != [] ==> FirstRunnable(s.queue, s.locks) == 0 && Enabled(s, PopRunnable))
  {
    hide Possible, Reached, Kept, RanAre, Sorted, Serial, Tickets;
    InitialInv(db);
    ReachedInv(Initial(db), steps, db);
    var s := Reached(Initial(db), steps);
    forall r ensures s.locks.Held(r) == 0 {
      assert s.locks.Held(r) == |Bag(s.held, Wants(r))|;
    }
  }

  /** Two runs that ran the same jobs and operations, in the same order as far as each resource can see, end with the
      same stores and told everyone the same; and what they recorded replays alike. It does not matter in which order
      the jobs and operations arrived: `f` takes an arrival number of the one run to that of the other. */
  lemma RunsAgree(db: Db, steps: seq<Step>, steps': seq<Step>, f: nat -> nat)
    requires Possible(Initial(db), steps) && Possible(Initial(db), steps')
    requires var a, b := Renamed(Reached(Initial(db), steps).ran, f), Reached(Initial(db), steps').ran;
             multiset(a) == multiset(b) && forall r :: Using(a, r) == Using(b, r)
    ensures var s, s' := Reached(Initial(db), steps), Reached(Initial(db), steps');
            && Alike(s.db, s'.db)
            && (forall i, j :: 0 <= i < |s.finished| && 0 <= j < |s'.finished| && s'.finished[j].job.id == f(s.finished[i].job.id) ==>
                  s.finished[i].outcome == s'.finished[j].outcome)
  {
    hide Possible, Reached, Kept, RanAre, Sorted, Using, RunJobs, Outcomes, Alike, DistinctIds;
    InitialInv(db);
    ReachedInv(Initial(db), steps, db);
    ReachedInv(Initial(db), steps', db);
    var s, s' := Reached(Initial(db), steps), Reached(Initial(db), steps');
    RanOnce(s');
    RenamedOrdersAgree(db, s.ran, s'.ran, f);
    forall i, j | 0 <= i < |s.finished| && 0 <= j < |s'.finished| && s'.finished[j].job.id == f(s.finished[i].job.id)
      ensures s.finished[i].outcome == s'.finished[j].outcome {
      FinishedRan(s, i);
    }
  }

  lemma FinishedRan(s: System, i: nat)
    requires Tickets(s) && RanAre(s) && i < |s.finished|
    ensures HasRun(s.finished[i]) && exists k :: 0 <= k < |s.ran| && s.ran[k] == s.finished[i].job
  {
    hide Bag;
    RanListed(s.finished, s.ran, i);
  }

  lemma RunIsDistinct(db: Db, steps: seq<Step>)
    requires Possible(Initial(db), steps)
    ensures DistinctIds(Reached(Initial(db), steps).ran)
  {
    hide Possible, Reached, DistinctIds, Kept, RanAre;
    InitialInv(db);
    ReachedInv(Initial(db), steps, db);
    RanOnce(Reached(Initial(db), steps));
  }

  /** The same, for jobs and operations that arrived in the same order. */
  lemma RunsInArrivalOrderAgree(db: Db, steps: seq<Step>, steps': seq<Step>)
    requires Possible(Initial(db), steps) && Possible(Initial(db), steps')
    requires var a, b := Reached(Initial(db), steps).ran, Reached(Initial(db), steps').ran;
             multiset(a) == multiset(b) && forall r :: Using(a, r) == Using(b, r)
    ensures var s, s' := Reached(Initial(db), steps), Reached(Initial(db), steps');
            && Alike(s.db, s'.db) && Outcomes(db, s.ran) == Outcomes(db, s'.ran)
            && (forall i, j :: 0 <= i < |s.finished| && 0 <= j < |s'.finished| && s.finished[i].job.id == s'.finished[j].job.id ==>
                  s.finished[i].outcome == s'.finished[j].outcome)
  {
    hide Possible, Reached, Using, Alike, Outcomes, DistinctIds;
    var a, b := Reached(Initial(db), steps).ran, Reached(Initial(db), steps').ran;
    assert Renamed(a, n => n) == a;
    RunsAgree(db, steps, steps', n => n);
    RunIsDistinct(db, steps');
    OrdersAgree(db, a, b);
  }

  // ---- what was done can be recovered ----

  ghost predicate Piped(ts: seq<Ticket>) {
    forall i, k :: 0 <= i < |ts| && 0 <= k < |ts[i].job.commands| ==> InPipeline(ts[i].job.commands[k])
  }

  /** The jobs not yet run hold pipeline commands only. */
  ghost predicate FromPipeline(s: System) {
    Piped(s.queue) && Piped(s.waiting) && Piped(s.held)
  }

  lemma FromPipelineStep(s: System, step: Step)
    requires FromPipeline(s) && Enabled(s, step)
    ensures FromPipeline(Next(s, step))
  {
    hide UniqueResources, CanAcquire, JobSpec.Execute, OutcomeOf, Acquired, Released, InPipeline;
  }

  /** No pipeline command can fail midway, so a job leaves a recoverable database recoverable, whether or not it fails. */
  lemma {:induction false} JobRecoverable(db: Db, cmds: seq<Command>)
    requires R.Recoverable(db) && forall k :: 0 <= k < |cmds| ==> InPipeline(cmds[k])
    ensures R.Recoverable(JobSpec.Execute(db, cmds))
    decreases |cmds|
  {
    hide R.Recoverable, After, Error;
    if cmds != [] {
      R.StepRecoverableIff(db, cmds[0]);
      if Error(db, cmds[0]).None? {
        JobRecoverable(After(db, cmds[0]), cmds[1..]);
      }
    }
  }

  lemma OtherIsAfter(db: Db, op: Command)
    ensures JobSpec.Execute(db, [op]) == After(db, op)
  {
    hide After, Error;
    assert [op][1..] == [];
  }

  /** No other client's operation fails midway in the course of the run. */
  ghost predicate OthersWhole(s: System, steps: seq<Step>)
    requires Possible(s, steps)
    decreases |steps|
  {
    steps == [] ||
    ((steps[0].Other? ==> !R.FailsMidway(s.db, steps[0].op)) && OthersWhole(Next(s, steps[0]), steps[1..]))
  }

  /** Over every interleaving, what the jobs did can be recovered from the record; it takes only that no other
      client's operation fails midway. */
  lemma {:induction false} EveryRunRecoverable(s: System, steps: seq<Step>)
    requires FromPipeline(s) && R.Recoverable(s.db) && Possible(s, steps) && OthersWhole(s, steps)
    ensures R.Recoverable(Reached(s, steps).db)
    decreases |steps|
  {
    hide FromPipeline, R.Recoverable, R.FailsMidway, Enabled;
    if steps != [] {
      FromPipelineStep(s, steps[0]);
      RecoverableStep(s, steps[0]);
      EveryRunRecoverable(Next(s, steps[0]), steps[1..]);
    }
  }

  lemma RecoverableStep(s: System, step: Step)
    requires FromPipeline(s) && R.Recoverable(s.db) && Enabled(s, step) && (step.Other? ==> !R.FailsMidway(s.db, step.op))
    ensures R.Recoverable(Next(s, step).db)
  {
    hide R.Recoverable, R.FailsMidway, JobSpec.Execute, After, UniqueResources, CanAcquire, InPipeline;
    if step.Execute? {
      JobRecoverable(s.db, s.held[step.task].job.commands);
    } else if step.Other? {
      OtherIsAfter(s.db, step.op);
      R.StepRecoverableIff(s.db, step.op);
    }
  }
}
