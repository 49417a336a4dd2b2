/** Pipeline jobs: what they use, what running them does, and which orders of running them cannot be told apart. */
module JobSpec {
  import opened Bytes
  import opened Aof
  import opened DbSpec

  /** The stores a job may lock. */
  type Resource = Category

  /** An operation of the database, with what it meets when it runs. */
  type Command = DbOp

  /** The operations a pipeline accepts. */
  predicate InPipeline(op: DbOp) {
    op.SetKey? || op.DelKey? || op.FlushDb? || op.Push? || op.Pop? || op.FlushList? || op.Add?
  }

  type PipelineCommand = op: DbOp | InPipeline(op) witness Pop("")

  /** `id` tells jobs apart: it is the job's place in the order of arrival. */
  datatype Job = Job(id: nat, commands: seq<Command>)

  datatype Outcome = NotRun | Succeeded | Failed(error: DbError)

  // ---- what a job uses ----

  predicate Uses(cmds: seq<Command>, r: Resource) {
    exists i :: 0 <= i < |cmds| && Target(cmds[i]) == r
  }

  function Noted(seen: seq<Resource>, r: Resource): seq<Resource> {
    if r in seen then seen else seen + [r]
  }

  /** The resources in the order in which they are first used. */
  function UniqueResources(cmds: seq<Command>): seq<Resource> {
    if cmds == [] then [] else Noted(UniqueResources(cmds[..|cmds| - 1]), Target(cmds[|cmds| - 1]))
  }

  lemma {:induction false} UniqueResourcesAre(cmds: seq<Command>)
    ensures NoDup(UniqueResources(cmds)) && forall r :: r in UniqueResources(cmds) <==> Uses(cmds, r)
    decreases |cmds|
  {
    if cmds != [] {
      var init, last := cmds[..|cmds| - 1], cmds[|cmds| - 1];
      UniqueResourcesAre(init);
      forall r ensures Uses(cmds, r) <==> Uses(init, r) || Target(last) == r {
        if Uses(init, r) {
          var i :| 0 <= i < |init| && Target(init[i]) == r;
          assert cmds[i] == init[i];
        }
        if Uses(cmds, r) && Target(last) != r {
          var i :| 0 <= i < |cmds| && Target(cmds[i]) == r;
          assert init[i] == cmds[i];
        }
      }
    }
  }

  // ---- running a job ----

  /** Commands run in order up to and including the first that fails; nothing is undone. */
  function Execute(s: Db, cmds: seq<Command>): Db
    decreases |cmds|
  {
    if cmds == [] then s
    else if Error(s, cmds[0]).Some? then After(s, cmds[0])
    else Execute(After(s, cmds[0]), cmds[1..])
  }

  function OutcomeOf(s: Db, cmds: seq<Command>): (o: Outcome)
    ensures !o.NotRun?
    decreases |cmds|
  {
    if cmds == [] then Succeeded
    else if Error(s, cmds[0]).Some? then Failed(Error(s, cmds[0]).value)
    else OutcomeOf(After(s, cmds[0]), cmds[1..])
  }

  /** What the job adds to the record. */
  function Writes(s: Db, cmds: seq<Command>): seq<AofEntry>
    decreases |cmds|
  {
    if cmds == [] || Error(s, cmds[0]).Some? then []
    else Recorded(cmds[0]) + Writes(After(s, cmds[0]), cmds[1..])
  }

  /** Two states hold the same in the store `r`. */
  ghost predicate SameStore(s: Db, t: Db, r: Resource) {
    match r
    case OfKv => s.kv == t.kv
    case OfList => s.lists == t.lists
    case OfLog => s.logs == t.logs
  }

  /** A command depends on its own store only, and changes no other. */
  lemma StepLocal(s: Db, t: Db, cmd: Command)
    requires SameStore(s, t, Target(cmd))
    ensures Error(s, cmd) == Error(t, cmd) && SameStore(After(s, cmd), After(t, cmd), Target(cmd))
    ensures forall r :: r != Target(cmd) ==> SameStore(After(s, cmd), s, r)
    ensures After(s, cmd).aof == s.aof + if Error(s, cmd).None? then Recorded(cmd) else []
  {
    hide Recorded, LogsAfter, ListsAfter, KvAfter, LogError, ListError, KvError, Target;
    OneStore(s, cmd);
    OneStore(t, cmd);
  }

  lemma UsesFront(cmds: seq<Command>)
    requires cmds != []
    ensures Uses(cmds, Target(cmds[0])) && forall r :: Uses(cmds[1..], r) ==> Uses(cmds, r)
  {
    forall r | Uses(cmds[1..], r) ensures Uses(cmds, r) {
      var i :| 0 <= i < |cmds[1..]| && Target(cmds[1..][i]) == r;
      assert cmds[i + 1] == cmds[1..][i];
    }
  }

  /** Run from states that agree on what the job uses, it has the same outcome, records the same, and leaves them agreeing. */
  lemma {:induction false} ExecuteLocal(s: Db, t: Db, cmds: seq<Command>, also: set<Resource>)
    requires forall r :: Uses(cmds, r) || r in also ==> SameStore(s, t, r)
    ensures OutcomeOf(s, cmds) == OutcomeOf(t, cmds) && Writes(s, cmds) == Writes(t, cmds)
    ensures forall r :: Uses(cmds, r) || r in also ==> SameStore(Execute(s, cmds), Execute(t, cmds), r)
    decreases |cmds|
  {
    hide After, Error, Recorded, Target, Uses;
    if cmds != [] {
      var used := (set r: Resource | Uses(cmds, r)) + also;
      UsesFront(cmds);
      StepLocal(s, t, cmds[0]);
      StepLocal(t, s, cmds[0]);
      forall r | r in used ensures SameStore(After(s, cmds[0]), After(t, cmds[0]), r) {
        if r != Target(cmds[0]) {
          assert SameStore(After(s, cmds[0]), s, r) && SameStore(After(t, cmds[0]), t, r);
        }
      }
      ExecuteLocal(After(s, cmds[0]), After(t, cmds[0]), cmds[1..], used);
    }
  }

  /** What a job does not use it leaves alone. */
  lemma {:induction false} ExecuteFrame(s: Db, cmds: seq<Command>, r: Resource)
    requires !Uses(cmds, r)
    ensures SameStore(Execute(s, cmds), s, r)
    decreases |cmds|
  {
    hide After, Error, Recorded, Target, Uses;
    if cmds != [] {
      UsesFront(cmds);
      StepLocal(s, s, cmds[0]);
      assert SameStore(After(s, cmds[0]), s, r);
      ExecuteFrame(After(s, cmds[0]), cmds[1..], r);
    }
  }

  /** A job only adds to the record. */
  lemma {:induction false} ExecuteRecords(s: Db, cmds: seq<Command>)
    ensures Execute(s, cmds).aof == s.aof + Writes(s, cmds)
    decreases |cmds|
  {
    hide After, Error, Recorded;
    if cmds != [] {
      StepLocal(s, s, cmds[0]);
      if Error(s, cmds[0]).None? {
        var s', w := After(s, cmds[0]), Recorded(cmds[0]);
        ExecuteRecords(s', cmds[1..]);
        assert Execute(s, cmds) == Execute(s', cmds[1..]) && Writes(s, cmds) == w + Writes(s', cmds[1..]);
        hide Execute, Writes;
        assert s.aof + w + Writes(s', cmds[1..]) == s.aof + (w + Writes(s', cmds[1..]));
      }
    }
  }

  /** A job records only entries of the stores it uses. */
  lemma {:induction false} WritesOwn(s: Db, cmds: seq<Command>, e: AofEntry)
    requires e in Writes(s, cmds)
    ensures Uses(cmds, CategoryOf(e))
    decreases |cmds|
  {
    UsesFront(cmds);
    OneStore(s, cmds[0]);
    hide After, Error, Recorded, Target, Uses;
    if e !in Recorded(cmds[0]) {
      WritesOwn(After(s, cmds[0]), cmds[1..], e);
    }
  }

  /** A job in two halves: if the first succeeds the second runs from there, and if it fails the second never runs. */
  lemma {:induction false} ExecuteComposes(s: Db, a: seq<Command>, b: seq<Command>)
    ensures OutcomeOf(s, a).Succeeded? ==>
              && Execute(s, a + b) == Execute(Execute(s, a), b)
              && OutcomeOf(s, a + b) == OutcomeOf(Execute(s, a), b)
    ensures OutcomeOf(s, a).Failed? ==> Execute(s, a + b) == Execute(s, a) && OutcomeOf(s, a + b) == OutcomeOf(s, a)
    decreases |a|
  {
    hide After, Error;
    if a == [] {
      assert a + b == b;
    } else {
      assert (a + b)[1..] == a[1..] + b;
      ExecuteComposes(After(s, a[0]), a[1..], b);
    }
  }

  /** Carried out one after the other, the commands before the `i`-th all succeed. */
  predicate SucceedBefore(s: Db, cmds: seq<Command>, i: nat)
    requires i <= |cmds|
  {
    forall j :: 0 <= j < i ==> Error(RunOf(s, cmds[..j]), cmds[j]).None?
  }

  lemma SucceedBehind(s: Db, cmds: seq<Command>, i: nat)
    requires 0 < i <= |cmds| && SucceedBefore(s, cmds, i)
    ensures Error(s, cmds[0]).None? && SucceedBefore(After(s, cmds[0]), cmds[1..], i - 1)
  {
    hide After, Error;
    assert Error(RunOf(s, cmds[..0]), cmds[0]).None?;
    forall j | 0 <= j < i - 1 ensures Error(RunOf(After(s, cmds[0]), cmds[1..][..j]), cmds[1..][j]).None? {
      RunBehind(s, cmds, j + 1);
      assert Error(RunOf(s, cmds[..j + 1]), cmds[j + 1]).None?;
    }
  }

  lemma RunBehind(s: Db, cmds: seq<Command>, i: nat)
    requires 0 < i <= |cmds|
    ensures RunOf(s, cmds[..i]) == RunOf(After(s, cmds[0]), cmds[1..][..i - 1])
  {
    hide After;
    assert cmds[..i][1..] == cmds[1..][..i - 1];
  }

  /** A job fails with the error of its first command that fails, where those before it have left the database, and
      has then done that command and those before it. */
  lemma {:induction false} FailsAtFirst(s: Db, cmds: seq<Command>, i: nat)
    requires i < |cmds| && SucceedBefore(s, cmds, i) && Error(RunOf(s, cmds[..i]), cmds[i]).Some?
    ensures OutcomeOf(s, cmds) == Failed(Error(RunOf(s, cmds[..i]), cmds[i]).value)
    ensures Execute(s, cmds) == RunOf(s, cmds[..i + 1])
    decreases |cmds|
  {
    hide After, Error;
    RunBehind(s, cmds, i + 1);
    if i == 0 {
      assert cmds[1..][..0] == [];
    } else {
      SucceedBehind(s, cmds, i);
      RunBehind(s, cmds, i);
      FailsAtFirst(After(s, cmds[0]), cmds[1..], i - 1);
    }
  }

  /** It succeeds if and only if none of its commands fails where those before it have left the database, and has then
      done them all. */
  lemma {:induction false} SucceedsIff(s: Db, cmds: seq<Command>)
    ensures OutcomeOf(s, cmds) == Succeeded <==> SucceedBefore(s, cmds, |cmds|)
    ensures OutcomeOf(s, cmds) == Succeeded ==> Execute(s, cmds) == RunOf(s, cmds)
    decreases |cmds|
  {
    hide After, Error, SucceedBefore;
    if SucceedBefore(s, cmds, |cmds|) {
      AllSucceed(s, cmds);
    } else {
      var i := FirstFailure(s, cmds);
      FailsAtFirst(s, cmds, i);
    }
  }

  lemma {:induction false} AllSucceed(s: Db, cmds: seq<Command>)
    requires SucceedBefore(s, cmds, |cmds|)
    ensures OutcomeOf(s, cmds) == Succeeded && Execute(s, cmds) == RunOf(s, cmds)
    decreases |cmds|
  {
    hide After, Error, SucceedBefore;
    if cmds != [] {
      SucceedBehind(s, cmds, |cmds|);
      AllSucceed(After(s, cmds[0]), cmds[1..]);
    }
  }

  lemma FirstFailure(s: Db, cmds: seq<Command>) returns (i: nat)
    requires !SucceedBefore(s, cmds, |cmds|)
    ensures i < |cmds| && SucceedBefore(s, cmds, i) && Error(RunOf(s, cmds[..i]), cmds[i]).Some?
  {
    hide Error, RunOf;
    i := 0;
    while i < |cmds| && Error(RunOf(s, cmds[..i]), cmds[i]).None?
      invariant i <= |cmds| && SucceedBefore(s, cmds, i)
    {
      i := i + 1;
    }
  }

  // ---- jobs that share nothing ----

  ghost predicate Apart(a: Job, b: Job) {
    forall r :: !(Uses(a.commands, r) && Uses(b.commands, r))
  }

  /** The same stores, and records that replay alike: the same entries of each category in the same order. */
  ghost predicate Alike(s: Db, t: Db) {
    && s.kv == t.kv && s.lists == t.lists && s.logs == t.logs
    && forall c :: Only(s.aof, CategoryOf, c) == Only(t.aof, CategoryOf, c)
  }

  lemma {:induction false} OnlyNone(es: seq<AofEntry>, c: Category)
    requires forall e :: e in es ==> CategoryOf(e) != c
    ensures Only(es, CategoryOf, c) == []
    decreases |es|
  {
    if es != [] {
      assert es[0] in es;
      OnlyNone(es[1..], c);
    }
  }

  /** Two records appended in either order, with no category in common. */
  lemma OnlySwap(s: seq<AofEntry>, a: seq<AofEntry>, b: seq<AofEntry>, c: Category)
    requires (forall e :: e in a ==> CategoryOf(e) != c) || (forall e :: e in b ==> CategoryOf(e) != c)
    ensures Only(s + a + b, CategoryOf, c) == Only(s + b + a, CategoryOf, c)
  {
    OnlyAppend(s + a, b, CategoryOf, c);
    OnlyAppend(s, a, CategoryOf, c);
    OnlyAppend(s + b, a, CategoryOf, c);
    OnlyAppend(s, b, CategoryOf, c);
    if forall e :: e in a ==> CategoryOf(e) != c {
      OnlyNone(a, c);
    } else {
      OnlyNone(b, c);
    }
    hide Only;
  }

  lemma CommuteStore(s: Db, a: seq<Command>, b: seq<Command>, r: Resource)
    requires forall r :: !(Uses(a, r) && Uses(b, r))
    ensures SameStore(Execute(Execute(s, a), b), Execute(Execute(s, b), a), r)
    ensures Uses(b, r) ==> SameStore(Execute(s, a), s, r)
  {
    hide Execute, Uses;
    var x, y := Execute(s, a), Execute(s, b);
    forall q | Uses(b, q) ensures SameStore(x, s, q) {
      ExecuteFrame(s, a, q);
    }
    forall q | Uses(a, q) ensures SameStore(y, s, q) {
      ExecuteFrame(s, b, q);
    }
    ExecuteLocal(x, s, b, {});
    ExecuteLocal(y, s, a, {});
    if !Uses(a, r) {
      ExecuteFrame(s, a, r);
      ExecuteFrame(y, a, r);
    }
    if !Uses(b, r) {
      ExecuteFrame(s, b, r);
      ExecuteFrame(x, b, r);
    }
  }

  lemma OwnOnly(s: Db, a: seq<Command>, c: Category)
    requires !Uses(a, c)
    ensures forall e :: e in Writes(s, a) ==> CategoryOf(e) != c
  {
    forall e | e in Writes(s, a) ensures CategoryOf(e) != c {
      WritesOwn(s, a, e);
    }
  }

  /** Two jobs with no resource in common commute: the same stores and the same two outcomes, whether or not
      either stops at a failing command; and what they record replays alike. */
  lemma DisjointJobsCommute(s: Db, a: Job, b: Job)
    requires Apart(a, b)
    ensures Alike(Execute(Execute(s, a.commands), b.commands), Execute(Execute(s, b.commands), a.commands))
    ensures OutcomeOf(Execute(s, a.commands), b.commands) == OutcomeOf(s, b.commands)
    ensures OutcomeOf(Execute(s, b.commands), a.commands) == OutcomeOf(s, a.commands)
  {
    hide Execute, Writes, OutcomeOf, Uses;
    var p, q := a.commands, b.commands;
    var x, y := Execute(s, p), Execute(s, q);
    var xy, yx := Execute(x, q), Execute(y, p);
    forall r: Resource ensures SameStore(xy, yx, r) && (Uses(q, r) ==> SameStore(x, s, r)) && (Uses(p, r) ==> SameStore(y, s, r)) {
      CommuteStore(s, p, q, r);
      CommuteStore(s, q, p, r);
    }
    assert SameStore(xy, yx, OfKv) && SameStore(xy, yx, OfList) && SameStore(xy, yx, OfLog);
    ExecuteLocal(x, s, q, {});
    ExecuteLocal(y, s, p, {});
    ExecuteRecords(s, p);
    ExecuteRecords(s, q);
    ExecuteRecords(x, q);
    ExecuteRecords(y, p);
    hide SameStore;
    forall c ensures Only(xy.aof, CategoryOf, c) == Only(yx.aof, CategoryOf, c) {
      if Uses(p, c) {
        OwnOnly(s, q, c);
      } else {
        OwnOnly(s, p, c);
      }
      OnlySwap(s.aof, Writes(s, p), Writes(s, q), c);
    }
  }

  /** States that are alike stay alike under the same job, with the same outcome. */
  lemma ExecuteAlike(s: Db, t: Db, cmds: seq<Command>)
    requires Alike(s, t)
    ensures Alike(Execute(s, cmds), Execute(t, cmds)) && OutcomeOf(s, cmds) == OutcomeOf(t, cmds)
  {
    ExecuteRecords(s, cmds);
    ExecuteRecords(t, cmds);
    ExecuteLocal(s, t, cmds, {OfKv, OfList, OfLog});
    hide Execute, Writes, OutcomeOf, Uses;
    var s', t' := Execute(s, cmds), Execute(t, cmds);
    assert SameStore(s', t', OfKv) && SameStore(s', t', OfList) && SameStore(s', t', OfLog);
    forall c ensures Only(s'.aof, CategoryOf, c) == Only(t'.aof, CategoryOf, c) {
      OnlyAppend(s.aof, Writes(s, cmds), CategoryOf, c);
      OnlyAppend(t.aof, Writes(t, cmds), CategoryOf, c);
    }
  }

  // ---- orders of running ----

  function RunJobs(s: Db, jobs: seq<Job>): Db
    decreases |jobs|
  {
    if jobs == [] then s else RunJobs(Execute(s, jobs[0].commands), jobs[1..])
  }

  function Outcomes(s: Db, jobs: seq<Job>): map<nat, Outcome>
    decreases |jobs|
  {
    if jobs == [] then map[]
    else Outcomes(Execute(s, jobs[0].commands), jobs[1..])[jobs[0].id := OutcomeOf(s, jobs[0].commands)]
  }

  /** The jobs that use `r`, in order. */
  function Using(jobs: seq<Job>, r: Resource): seq<Job> {
    if jobs == [] then [] else (if Uses(jobs[0].commands, r) then [jobs[0]] else []) + Using(jobs[1..], r)
  }

  ghost predicate DistinctIds(jobs: seq<Job>) {
    forall i, j :: 0 <= i < j < |jobs| ==> jobs[i].id != jobs[j].id
  }

  lemma {:induction false} RunAlike(s: Db, t: Db, jobs: seq<Job>)
    requires Alike(s, t)
    ensures Alike(RunJobs(s, jobs), RunJobs(t, jobs)) && Outcomes(s, jobs) == Outcomes(t, jobs)
    decreases |jobs|
  {
    if jobs != [] {
      ExecuteAlike(s, t, jobs[0].commands);
      hide Alike, Execute, OutcomeOf;
      RunAlike(Execute(s, jobs[0].commands), Execute(t, jobs[0].commands), jobs[1..]);
    }
  }

  lemma RunFront(s: Db, x: Job, jobs: seq<Job>)
    ensures RunJobs(s, [x] + jobs) == RunJobs(Execute(s, x.commands), jobs)
    ensures Outcomes(s, [x] + jobs) == Outcomes(Execute(s, x.commands), jobs)[x.id := OutcomeOf(s, x.commands)]
  {
    assert ([x] + jobs)[1..] == jobs;
  }

  lemma AlikeTrans(s: Db, t: Db, u: Db)
    requires Alike(s, t) && Alike(t, u)
    ensures Alike(s, u)
  {
  }

  /** Two neighbours with nothing in common may be swapped. */
  lemma SwapFront(s: Db, y: Job, x: Job, rest: seq<Job>)
    requires Apart(y, x) && x.id != y.id
    ensures Alike(RunJobs(s, [y] + ([x] + rest)), RunJobs(s, [x] + ([y] + rest)))
    ensures Outcomes(s, [y] + ([x] + rest)) == Outcomes(s, [x] + ([y] + rest))
  {
    hide Alike, Execute, OutcomeOf, RunJobs, Outcomes, Uses;
    DisjointJobsCommute(s, y, x);
    var sx, sy := Execute(s, x.commands), Execute(s, y.commands);
    RunAlike(Execute(sy, x.commands), Execute(sx, y.commands), rest);
    RunFront(s, y, [x] + rest);
    RunFront(sy, x, rest);
    RunFront(s, x, [y] + rest);
    RunFront(sx, y, rest);
  }

  lemma PrefixFront(pre: seq<Job>, rest: seq<Job>)
    requires pre != []
    ensures pre + rest == [pre[0]] + (pre[1..] + rest)
  {
  }

  /** A job may be moved ahead of jobs it has nothing in common with. */
  lemma {:induction false} MoveFront(s: Db, pre: seq<Job>, x: Job, post: seq<Job>)
    requires forall y :: y in pre ==> Apart(y, x) && y.id != x.id
    ensures Alike(RunJobs(s, pre + ([x] + post)), RunJobs(s, [x] + (pre + post)))
    ensures Outcomes(s, pre + ([x] + post)) == Outcomes(s, [x] + (pre + post))
    decreases |pre|
  {
    if pre == [] {
      assert pre + ([x] + post) == [x] + (pre + post);
    } else {
      hide Execute, OutcomeOf, RunJobs, Outcomes, Uses;
      var y, tail := pre[0], pre[1..];
      var sy := Execute(s, y.commands);
      assert y in pre;
      MoveFront(sy, tail, x, post);
      hide Alike, Apart;
      PrefixFront(pre, [x] + post);
      PrefixFront(pre, post);
      RunFront(s, y, tail + ([x] + post));
      RunFront(s, y, [x] + (tail + post));
      SwapFront(s, y, x, tail + post);
      AlikeTrans(RunJobs(s, pre + ([x] + post)), RunJobs(s, [y] + ([x] + (tail + post))), RunJobs(s, [x] + (pre + post)));
    }
  }

  lemma {:induction false} UsingAppend(a: seq<Job>, b: seq<Job>, r: Resource)
    ensures Using(a + b, r) == Using(a, r) + Using(b, r)
    decreases |a|
  {
    hide Uses;
    if a == [] {
      assert a + b == b;
    } else {
      UsingAppend(a[1..], b, r);
      assert (a + b)[1..] == a[1..] + b;
      var first := if Uses(a[0].commands, r) then [a[0]] else [];
      assert Using(a + b, r) == first + Using(a[1..] + b, r) && Using(a, r) == first + Using(a[1..], r);
      hide Using;
    }
  }

  lemma {:induction false} UsingMembers(a: seq<Job>, r: Resource)
    ensures forall y :: y in Using(a, r) <==> y in a && Uses(y.commands, r)
    decreases |a|
  {
    hide Uses;
    if a != [] {
      UsingMembers(a[1..], r);
    }
  }

  lemma UsingOne(x: Job, jobs: seq<Job>, r: Resource)
    ensures Using([x] + jobs, r) == if Uses(x.commands, r) then [x] + Using(jobs, r) else Using(jobs, r)
  {
    hide Uses;
    assert ([x] + jobs)[1..] == jobs;
    assert [] + Using(jobs, r) == Using(jobs, r);
  }

  lemma UsingAhead(pre: seq<Job>, rest: seq<Job>, y: Job, r: Resource)
    requires y in pre && Uses(y.commands, r)
    ensures Using(pre + rest, r) != [] && Using(pre + rest, r)[0] in pre
  {
    hide Uses, Using;
    UsingMembers(pre, r);
    UsingAppend(pre, rest, r);
    assert Using(pre, r)[0] in Using(pre, r);
  }

  /** If every resource sees the jobs in the same order, the job that comes first here can come first there. */
  lemma FirstIsFree(a: seq<Job>, pre: seq<Job>, x: Job, post: seq<Job>, y: Job)
    requires a != [] && a[0] == x && y in pre && x !in pre
    requires forall r :: Using(a, r) == Using(pre + ([x] + post), r)
    ensures Apart(y, x)
  {
    hide Uses, Using;
    assert a == [x] + a[1..];
    forall r ensures !(Uses(y.commands, r) && Uses(x.commands, r)) {
      UsingOne(x, a[1..], r);
      if Uses(y.commands, r) {
        UsingAhead(pre, [x] + post, y, r);
      }
    }
  }

  lemma {:induction false} UsingNone(pre: seq<Job>, r: Resource)
    requires forall y :: y in pre ==> !Uses(y.commands, r)
    ensures Using(pre, r) == []
    decreases |pre|
  {
    hide Uses;
    if pre != [] {
      assert pre[0] in pre;
      UsingNone(pre[1..], r);
    }
  }

  lemma UsingWithout(a: seq<Job>, pre: seq<Job>, x: Job, post: seq<Job>, r: Resource)
    requires a != [] && a[0] == x && Using(a, r) == Using(pre + ([x] + post), r)
    requires forall y :: y in pre ==> Apart(y, x)
    ensures Using(a[1..], r) == Using(pre + post, r)
  {
    hide Uses, Using;
    assert a == [x] + a[1..];
    UsingOne(x, a[1..], r);
    UsingAppend(pre, [x] + post, r);
    UsingOne(x, post, r);
    UsingAppend(pre, post, r);
    if Uses(x.commands, r) {
      UsingNone(pre, r);
      assert ([x] + Using(a[1..], r))[1..] == Using(a[1..], r);
      assert ([x] + Using(post, r))[1..] == Using(post, r);
      assert [] + ([x] + Using(post, r)) == [x] + Using(post, r);
      assert [] + Using(post, r) == Using(post, r);
    }
  }

  /** Serialisability: two orders of the same jobs that agree, resource by resource, on the order of the jobs
      using it lead to the same stores and give every job the same outcome; and what they record replays alike. */
  lemma {:induction false} OrdersAgree(s: Db, a: seq<Job>, b: seq<Job>)
    requires multiset(a) == multiset(b) && DistinctIds(b)
    requires forall r :: Using(a, r) == Using(b, r)
    ensures Alike(RunJobs(s, a), RunJobs(s, b)) && Outcomes(s, a) == Outcomes(s, b)
    decreases |a|
  {
    hide Uses, Using, Execute, OutcomeOf, Apart, Alike, DistinctIds, RunJobs, Outcomes;
    if a == [] {
      assert |multiset(b)| == |multiset(a)| == 0;
      assert b == [];
      AlikeRefl(RunJobs(s, a));
    } else {
      var x := a[0];
      var pre, post := SplitAt(a, b);
      FreeToMove(a, pre, x, post);
      SameRest(a, pre, x, post);
      DistinctRest(pre, x, post);
      MoveFront(s, pre, x, post);
      var sx := Execute(s, x.commands);
      OrdersAgree(sx, a[1..], pre + post);
      RunFront(s, x, a[1..]);
      assert a == [x] + a[1..];
      RunFront(s, x, pre + post);
      AlikeSym(RunJobs(s, b), RunJobs(s, [x] + (pre + post)));
      AlikeTrans(RunJobs(s, a), RunJobs(s, [x] + (pre + post)), RunJobs(s, b));
    }
  }

  lemma SplitAt(a: seq<Job>, b: seq<Job>) returns (pre: seq<Job>, post: seq<Job>)
    requires a != [] && multiset(a) == multiset(b)
    ensures b == pre + ([a[0]] + post)
  {
    assert a[0] in multiset(a);
    var p :| 0 <= p < |b| && b[p] == a[0];
    pre, post := b[..p], b[p + 1..];
  }

  lemma AlikeRefl(s: Db)
    ensures Alike(s, s)
  {
  }

  lemma AlikeSym(s: Db, t: Db)
    requires Alike(s, t)
    ensures Alike(t, s)
  {
  }

  lemma FreeToMove(a: seq<Job>, pre: seq<Job>, x: Job, post: seq<Job>)
    requires a != [] && a[0] == x && DistinctIds(pre + ([x] + post))
    requires forall r :: Using(a, r) == Using(pre + ([x] + post), r)
    ensures forall y :: y in pre ==> Apart(y, x) && y.id != x.id
    ensures forall r :: Using(a[1..], r) == Using(pre + post, r)
  {
    hide Uses, Using, Apart;
    var b := pre + ([x] + post);
    forall i | 0 <= i < |pre| ensures pre[i].id != x.id {
      assert b[i] == pre[i] && b[|pre|] == x;
    }
    forall y | y in pre ensures Apart(y, x) {
      FirstIsFree(a, pre, x, post, y);
    }
    forall r ensures Using(a[1..], r) == Using(pre + post, r) {
      UsingWithout(a, pre, x, post, r);
    }
  }

  lemma SameRest(a: seq<Job>, pre: seq<Job>, x: Job, post: seq<Job>)
    requires a != [] && a[0] == x && multiset(a) == multiset(pre + ([x] + post))
    ensures multiset(a[1..]) == multiset(pre + post)
  {
    assert a == [x] + a[1..];
    assert multiset(a[1..]) == multiset(a) - multiset{x};
    assert multiset(pre + post) == multiset(pre + ([x] + post)) - multiset{x};
  }

  lemma DistinctRest(pre: seq<Job>, x: Job, post: seq<Job>)
    requires DistinctIds(pre + ([x] + post))
    ensures DistinctIds(pre + post)
  {
    var b, c := pre + ([x] + post), pre + post;
    forall i, j | 0 <= i < j < |c| ensures c[i].id != c[j].id {
      var i', j' := if i < |pre| then i else i + 1, if j < |pre| then j else j + 1;
      assert b[i'] == c[i] && b[j'] == c[j];
    }
  }

  // ---- the same jobs under other ids ----

  function Renamed(jobs: seq<Job>, f: nat -> nat): (r: seq<Job>)
    ensures |r| == |jobs| && forall i :: 0 <= i < |r| ==> r[i] == Job(f(jobs[i].id), jobs[i].commands)
  {
    if jobs == [] then [] else [Job(f(jobs[0].id), jobs[0].commands)] + Renamed(jobs[1..], f)
  }

  /** Ids play no part in what jobs do. */
  lemma {:induction false} RenamedRuns(s: Db, jobs: seq<Job>, f: nat -> nat)
    ensures RunJobs(s, Renamed(jobs, f)) == RunJobs(s, jobs)
    decreases |jobs|
  {
    hide Execute;
    if jobs != [] {
      RenamedRuns(Execute(s, jobs[0].commands), jobs[1..], f);
      RunFront(s, Job(f(jobs[0].id), jobs[0].commands), Renamed(jobs[1..], f));
    }
  }

  lemma {:induction false} RenamedOutcomes(s: Db, jobs: seq<Job>, f: nat -> nat, i: nat)
    requires DistinctIds(Renamed(jobs, f)) && i < |jobs|
    ensures jobs[i].id in Outcomes(s, jobs) && f(jobs[i].id) in Outcomes(s, Renamed(jobs, f))
    ensures Outcomes(s, jobs)[jobs[i].id] == Outcomes(s, Renamed(jobs, f))[f(jobs[i].id)]
    decreases |jobs|
  {
    hide Execute, OutcomeOf;
    var x, sx := jobs[0], Execute(s, jobs[0].commands);
    assert jobs == [x] + jobs[1..];
    RunFront(s, x, jobs[1..]);
    RunFront(s, Job(f(x.id), x.commands), Renamed(jobs[1..], f));
    if i > 0 {
      hide Outcomes;
      assert Renamed(jobs[1..], f) == Renamed(jobs, f)[1..];
      assert Renamed(jobs, f)[0].id != Renamed(jobs, f)[i].id;
      RenamedOutcomes(sx, jobs[1..], f, i - 1);
    }
  }

  lemma CountTwo(a: seq<Job>, i: nat, j: nat)
    requires i < j < |a| && a[i] == a[j]
    ensures multiset(a)[a[i]] >= 2
  {
    assert a == a[..j] + a[j..];
    assert a[i] == a[..j][i] && a[i] == a[j..][0];
    assert a[i] in multiset(a[..j]) && a[i] in multiset(a[j..]);
  }

  lemma {:induction false} CountOne(b: seq<Job>, x: Job)
    requires DistinctIds(b)
    ensures multiset(b)[x] <= 1
    decreases |b|
  {
    if b != [] {
      assert b == [b[0]] + b[1..];
      CountOne(b[1..], x);
      assert x == b[0] ==> x !in b[1..];
    }
  }

  lemma DistinctSame(a: seq<Job>, b: seq<Job>)
    requires multiset(a) == multiset(b) && DistinctIds(b)
    ensures DistinctIds(a)
  {
    forall i, j | 0 <= i < j < |a| ensures a[i].id != a[j].id {
      assert a[i] in multiset(a) && a[j] in multiset(a);
      var p :| 0 <= p < |b| && b[p] == a[i];
      var q :| 0 <= q < |b| && b[q] == a[j];
      CountOne(b, a[i]);
      if a[i] == a[j] {
        CountTwo(a, i, j);
      }
    }
  }

  /** Serialisability for jobs known under other ids here and there: `f` translates them. */
  lemma RenamedOrdersAgree(s: Db, a: seq<Job>, b: seq<Job>, f: nat -> nat)
    requires multiset(Renamed(a, f)) == multiset(b) && DistinctIds(b)
    requires forall r :: Using(Renamed(a, f), r) == Using(b, r)
    ensures Alike(RunJobs(s, a), RunJobs(s, b))
    ensures forall i :: 0 <= i < |a| ==>
      && a[i].id in Outcomes(s, a) && f(a[i].id) in Outcomes(s, b)
      && Outcomes(s, a)[a[i].id] == Outcomes(s, b)[f(a[i].id)]
  {
    hide Using, RunJobs, Outcomes, Alike, DistinctIds;
    DistinctSame(Renamed(a, f), b);
    OrdersAgree(s, Renamed(a, f), b);
    RenamedRuns(s, a, f);
    forall i | 0 <= i < |a|
      ensures a[i].id in Outcomes(s, a) && f(a[i].id) in Outcomes(s, b) && Outcomes(s, a)[a[i].id] == Outcomes(s, b)[f(a[i].id)] {
      RenamedOutcomes(s, a, f, i);
    }
  }
}
